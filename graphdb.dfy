/** A reference graph store meeting the contract of the graph-store test
    suite: an edge list, a forward index `(src, label) -> dst`, a backward
    index `(dst, label) -> src`, and searches over the edges. */
module GraphDB {
  import opened Common
  import opened Graph
  import opened Lattice

  /** An edge of the divisor lattice below `aMax`. */
  ghost predicate IsLattice(e: Edge, aMax: int)
  {
    e.src.Num? && e.lbl.Num? && e.dst.Num? && LatticeEdge(e.src.n, e.lbl.n, e.dst.n, aMax)
  }

  /** Every edge of `E` is a lattice edge. */
  ghost predicate AllLatticeIn(E: seq<Edge>, aMax: int)
  {
    forall e :: e in E ==> IsLattice(e, aMax)
  }

  /** `E` added only lattice edges to `E0`. */
  ghost predicate Grown(E0: seq<Edge>, E: seq<Edge>, aMax: int)
  {
    forall e :: e in E ==> e in E0 || IsLattice(e, aMax)
  }

  /** Every lattice edge into `a` from below `b` is in `E`. */
  ghost predicate RowDone(E: seq<Edge>, a: int, b: int, aMax: int)
  {
    forall b', p :: LatticeEdge(b', p, a, aMax) && b' < b ==> Edge(Num(b'), Num(p), Num(a)) in E
  }

  /** Every lattice edge into a node below `a` is in `E`. */
  ghost predicate RowsDone(E: seq<Edge>, a: int, aMax: int)
  {
    forall b, p, a' :: LatticeEdge(b, p, a', aMax) && a' < a ==> Edge(Num(b), Num(p), Num(a')) in E
  }

  lemma GrownTrans(E0: seq<Edge>, E1: seq<Edge>, E2: seq<Edge>, aMax: int)
    requires E0 <= E1 && Grown(E0, E1, aMax) && Grown(E1, E2, aMax)
    ensures Grown(E0, E2, aMax)
    ensures AllLatticeIn(E0, aMax) && AllLatticeIn(E1, aMax) ==> AllLatticeIn(E2, aMax)
  {
  }

  /** Every edge appended after `E0` enters `a`. */
  ghost predicate Into(E0: seq<Edge>, E: seq<Edge>, a: int)
  {
    forall i :: |E0| <= i < |E| ==> E[i].dst == Num(a)
  }

  lemma AtMostAppended(E0: seq<Edge>, E: seq<Edge>, e: Edge)
    requires E == E0 || E == E0 + [e]
    ensures E0 <= E <= E0 + [e]
  {
  }

  lemma IntoPrefix(E0: seq<Edge>, E: seq<Edge>, e: Edge, a: int)
    requires E0 <= E <= E0 + [e] && e.dst == Num(a)
    ensures Into(E0, E, a)
  {
  }

  lemma IntoTrans(E0: seq<Edge>, E1: seq<Edge>, E2: seq<Edge>, a: int)
    requires Into(E0, E1, a) && Into(E1, E2, a) && E0 <= E1 <= E2
    ensures Into(E0, E2, a)
  {
    forall i | |E0| <= i < |E2| ensures E2[i].dst == Num(a) {
      if i < |E1| {
        assert E2[i] == E1[i];
      }
    }
  }

  lemma RowStep(E0: seq<Edge>, E: seq<Edge>, a: int, b: int, aMax: int)
    requires RowDone(E0, a, b, aMax) && E0 <= E
    requires forall p :: LatticeEdge(b, p, a, aMax) ==> Edge(Num(b), Num(p), Num(a)) in E
    ensures RowDone(E, a, b + 1, aMax)
  {
    forall b', p | LatticeEdge(b', p, a, aMax) && b' < b + 1 ensures Edge(Num(b'), Num(p), Num(a)) in E {
      if b' < b {
        assert Edge(Num(b'), Num(p), Num(a)) in E0;
      }
    }
  }

  lemma RowsStep(E0: seq<Edge>, E: seq<Edge>, a: int, aMax: int)
    requires RowsDone(E0, a, aMax) && E0 <= E && RowDone(E, a, a, aMax)
    ensures RowsDone(E, a + 1, aMax)
  {
    forall b, p, a' | LatticeEdge(b, p, a', aMax) && a' < a + 1 ensures Edge(Num(b), Num(p), Num(a')) in E {
      if a' < a {
        assert Edge(Num(b), Num(p), Num(a')) in E0;
      }
    }
  }

  /** What `findCommonAncestor(a, b)` answers: a node with forward paths to
      both, no pair of paths from a common ancestor being shorter in all;
      or, when no node leads to both, the error. */
  ghost predicate AncestorAnswer(E: seq<Edge>, a: Value, b: Value, r: Result<(Value, seq<Step>, seq<Step>)>)
  {
    && (r.Ok? ==> Follows(E, r.value.0, r.value.1, a) && Follows(E, r.value.0, r.value.2, b))
    && (r.Ok? ==> forall c, q1, q2 :: Follows(E, c, q1, a) && Follows(E, c, q2, b) ==>
                    |r.value.1| + |r.value.2| <= |q1| + |q2|)
    && (r.Err? ==> r.error == NoCommonAncestor &&
                   forall c, q1, q2 :: !(Follows(E, c, q1, a) && Follows(E, c, q2, b)))
  }

  /** Both indices hold exactly the edges of the list. */
  ghost predicate Indexed(E: seq<Edge>, fwd: map<(Value, Value), Value>, back: map<(Value, Value), Value>)
  {
    && (forall e :: e in E ==>
          (e.src, e.lbl) in fwd && fwd[(e.src, e.lbl)] == e.dst &&
          (e.dst, e.lbl) in back && back[(e.dst, e.lbl)] == e.src)
    && (forall k :: k in fwd ==> Edge(k.0, k.1, fwd[k]) in E)
    && (forall k :: k in back ==> Edge(back[k], k.1, k.0) in E)
  }

  /** Adding `f -l-> t` to `E` would give `(f, l)` or `(t, l)` a second partner. */
  ghost predicate Clash(E: seq<Edge>, f: Value, l: Value, t: Value)
  {
    exists e :: e in E && ((e.src == f && e.lbl == l && e.dst != t) || (e.dst == t && e.lbl == l && e.src != f))
  }

  /** The indices answer whether an edge clashes. */
  lemma ClashByIndex(E: seq<Edge>, fwd: map<(Value, Value), Value>, back: map<(Value, Value), Value>,
                     f: Value, l: Value, t: Value)
    requires Indexed(E, fwd, back)
    ensures Clash(E, f, l, t) <==> ((f, l) in fwd && fwd[(f, l)] != t) || ((t, l) in back && back[(t, l)] != f)
  {
    if (f, l) in fwd && fwd[(f, l)] != t {
      assert Edge(f, l, fwd[(f, l)]) in E;
    }
    if (t, l) in back && back[(t, l)] != f {
      assert Edge(back[(t, l)], l, t) in E;
    }
  }

  /** An edge whose keys are both new can be indexed. */
  lemma IndexedInsert(E: seq<Edge>, fwd: map<(Value, Value), Value>, back: map<(Value, Value), Value>,
                      f: Value, l: Value, t: Value)
    requires Indexed(E, fwd, back) && (f, l) !in fwd && (t, l) !in back
    ensures Indexed(E + [Edge(f, l, t)], fwd[(f, l) := t], back[(t, l) := f])
  {
    InsertEdges(E, fwd, back, f, l, t);
    InsertForward(E, fwd, f, l, t);
    InsertBackward(E, back, f, l, t);
  }

  lemma InsertEdges(E: seq<Edge>, fwd: map<(Value, Value), Value>, back: map<(Value, Value), Value>,
                    f: Value, l: Value, t: Value)
    requires Indexed(E, fwd, back) && (f, l) !in fwd && (t, l) !in back
    ensures var fwd', back' := fwd[(f, l) := t], back[(t, l) := f];
            forall e :: e in E + [Edge(f, l, t)] ==>
              (e.src, e.lbl) in fwd' && fwd'[(e.src, e.lbl)] == e.dst &&
              (e.dst, e.lbl) in back' && back'[(e.dst, e.lbl)] == e.src
  {
    forall e | e in E + [Edge(f, l, t)] && e != Edge(f, l, t) ensures e in E {
    }
  }

  lemma InsertForward(E: seq<Edge>, fwd: map<(Value, Value), Value>, f: Value, l: Value, t: Value)
    requires forall k :: k in fwd ==> Edge(k.0, k.1, fwd[k]) in E
    ensures var fwd' := fwd[(f, l) := t];
            forall k :: k in fwd' ==> Edge(k.0, k.1, fwd'[k]) in E + [Edge(f, l, t)]
  {
  }

  lemma InsertBackward(E: seq<Edge>, back: map<(Value, Value), Value>, f: Value, l: Value, t: Value)
    requires forall k :: k in back ==> Edge(back[k], k.1, k.0) in E
    ensures var back' := back[(t, l) := f];
            forall k :: k in back' ==> Edge(back'[k], k.1, k.0) in E + [Edge(f, l, t)]
  {
  }

  /** The walk of `findPath` from `x` along the recorded steps to the
      target, collecting the labels. */
  method TraceLabels(E: seq<Edge>, y: Value, dist: map<Value, nat>, next: map<Value, Step>, x: Value)
    returns (labels: seq<Value>)
    requires Searched(E, y, dist, next) && x in dist
    ensures labels == Labels(PathFrom(E, y, dist, next, x))
  {
    ghost var whole := Labels(PathFrom(E, y, dist, next, x));
    var cur := x;
    labels := [];
    while dist[cur] != 0
      invariant cur in dist
      invariant labels + Labels(PathFrom(E, y, dist, next, cur)) == whole
      decreases dist[cur]
    {
      PathFromStep(E, y, dist, next, cur);
      var s := next[cur];
      ConcatAssoc(labels, [s.l], Labels(PathFrom(E, y, dist, next, s.n)));
      labels, cur := labels + [s.l], s.n;
    }
    assert PathFrom(E, y, dist, next, cur) == [];
    assert labels + [] == labels;
  }

  class GraphDB {
    /** Every edge, in insertion order (the searches scan them in this order). */
    var edges: seq<Edge>
    var fwd: map<(Value, Value), Value>
    var back: map<(Value, Value), Value>

    ghost predicate Valid()
      reads this
    {
      Indexed(edges, fwd, back)
    }

    /** The indices make the edge list functional both ways. */
    lemma ValidFunctional()
      requires Valid()
      ensures Functional(edges)
    {
    }

    constructor ()
      ensures Valid() && edges == []
    {
      edges, fwd, back := [], map[], map[];
    }

    /** `queryEdge(f, l)`: the node the edge labelled `l` leads to from `f`. */
    function QueryEdge(f: Value, l: Value): (r: Result<Value>)
      reads this
      requires Valid()
      ensures forall t :: Edge(f, l, t) in edges <==> r == Ok(t)
      ensures r.Err? ==> r.error == NotFound
    {
      if (f, l) in fwd then Ok(fwd[(f, l)]) else Err(NotFound)
    }

    /** `queryBackEdge(t, l)`: the node the edge labelled `l` into `t` comes from. */
    function QueryBackEdge(t: Value, l: Value): (r: Result<Value>)
      reads this
      requires Valid()
      ensures forall f :: Edge(f, l, t) in edges <==> r == Ok(f)
      ensures r.Err? ==> r.error == NotFound
    {
      if (t, l) in back then Ok(back[(t, l)]) else Err(NotFound)
    }

    /** `addEdge(f, l, t)`: records the edge in both indices. Adding the same
        edge again changes nothing; an edge that would give `(f, l)` or
        `(t, l)` a second partner is refused. */
    method AddEdge(f: Value, l: Value, t: Value) returns (r: Result<()>)
      requires Valid()
      modifies this
      ensures Valid()
      ensures r.Ok? <==> !Clash(old(edges), f, l, t)
      ensures r.Err? ==> r.error == DuplicateEdge && unchanged(this)
      ensures r.Ok? ==> QueryEdge(f, l) == Ok(t) && QueryBackEdge(t, l) == Ok(f)
      ensures r.Ok? ==> edges == old(edges) + (if Edge(f, l, t) in old(edges) then [] else [Edge(f, l, t)])
      ensures forall e :: e in edges <==> e in old(edges) || (r.Ok? && e == Edge(f, l, t))
    {
      ClashByIndex(edges, fwd, back, f, l, t);
      if (f, l) in fwd && fwd[(f, l)] != t {
        return Err(DuplicateEdge);
      }
      if (t, l) in back && back[(t, l)] != f {
        return Err(DuplicateEdge);
      }
      if (f, l) in fwd {
        assert Edge(f, l, t) in edges;
        return Ok(());
      }
      IndexedInsert(edges, fwd, back, f, l, t);
      edges := edges + [Edge(f, l, t)];
      fwd := fwd[(f, l) := t];
      back := back[(t, l) := f];
      return Ok(());
    }

    /** `clear()`: forgets every edge. */
    method Clear()
      modifies this
      ensures Valid() && edges == []
    {
      edges, fwd, back := [], map[], map[];
    }

    /** One pass of the search over the edges in insertion order. */
    method ScanEdges(F: set<Value>, visited: set<Value>) returns (found: map<Value, Step>)
      ensures found == Scan(edges, F, visited, 0, map[])
    {
      found := map[];
      var i := 0;
      while i < |edges|
        invariant i <= |edges|
        invariant Scan(edges, F, visited, i, found) == Scan(edges, F, visited, 0, map[])
      {
        var e := edges[i];
        if e.dst in F && e.src !in visited && e.src !in found {
          found := found[e.src := Step(e.lbl, e.dst)];
        }
        i := i + 1;
      }
    }

    /** The breadth-first search backwards from `t`, level by level, with
        the set of reached nodes as its visited set. */
    method Explore(t: Value) returns (dist: map<Value, nat>, next: map<Value, Step>)
      ensures (dist, next) == BfsFrom(edges, t)
    {
      dist, next := map[t := 0], map[];
      var F: set<Value> := {t};
      var k: nat := 0;
      while F != {}
        invariant F <= dist.Keys <= Universe(edges, t)
        invariant Bfs(edges, t, dist, next, F, k) == BfsFrom(edges, t)
        decreases |Universe(edges, t) - dist.Keys|, |F|
      {
        var found := ScanEdges(F, dist.Keys);
        LevelFacts(edges, t, dist, F, k);
        BfsUnfold(edges, t, dist, next, F, k);
        dist, next, F, k := Grow(dist, found, k), next + found, found.Keys, k + 1;
      }
    }

    /** `findPath(x, y)`: the labels along a shortest path from `x` to `y`,
        or `NoPath`. */
    method FindPath(x: Value, y: Value) returns (r: Result<seq<Value>>)
      ensures r == FindPathSpec(edges, x, y)
    {
      var dist, next := Explore(y);
      FindPathUnfold(edges, x, y, dist, next);
      if x !in dist {
        return Err(NoPath);
      }
      var labels := TraceLabels(edges, y, dist, next, x);
      return Ok(labels);
    }

    /** A node of `common` with the least sum of distances; ties go to
        whichever the set iteration meets first. */
    static method Closest(distA: map<Value, nat>, distB: map<Value, nat>, common: set<Value>) returns (best: Value)
      requires common != {} && common <= distA.Keys * distB.Keys
      ensures best in common
      ensures forall c :: c in common ==> distA[best] + distB[best] <= distA[c] + distB[c]
    {
      best :| best in common;
      var rest := common - {best};
      while rest != {}
        invariant best in common && rest <= common
        invariant forall c :: c in common - rest ==> distA[best] + distB[best] <= distA[c] + distB[c]
        decreases |rest|
      {
        var c :| c in rest;
        if distA[c] + distB[c] < distA[best] + distB[best] {
          best := c;
        }
        rest := rest - {c};
      }
    }


    /** `findCommonAncestor(a, b)`: a node with forward paths to both `a` and
        `b` whose lengths add up to as little as any such node's, with the
        two paths as `{l, n}` steps. */
    method FindCommonAncestor(a: Value, b: Value) returns (r: Result<(Value, seq<Step>, seq<Step>)>)
      ensures AncestorAnswer(edges, a, b, r)
    {
      var distA, nextA := Explore(a);
      var distB, nextB := Explore(b);
      BfsFromCorrect(edges, a);
      BfsFromCorrect(edges, b);
      var common := distA.Keys * distB.Keys;
      if common == {} {
        NoneCommon(edges, a, b, distA, nextA, distB, nextB);
        return Err(NoCommonAncestor);
      }
      var best := Closest(distA, distB, common);
      NearestCommon(edges, a, b, distA, nextA, distB, nextB, best);
      var p1 := PathFrom(edges, a, distA, nextA, best);
      var p2 := PathFrom(edges, b, distB, nextB, best);
      return Ok((best, p1, p2));
    }
    /** The suite's `createGraph(1, 1, aMax)`: for every a below `aMax` and
        every b below a, adds the edge b -(a / b)-> a when b divides a with
        a prime quotient.  An edge the store refuses ends the build with its
        error. */
    method CreateGraph(aMax: int) returns (r: Result<()>)
      requires Valid()
      modifies this
      ensures Valid() && old(edges) <= edges
      ensures forall e :: e in edges ==> e in old(edges) || IsLattice(e, aMax)
      ensures r.Ok? ==> forall b, p, a :: LatticeEdge(b, p, a, aMax) ==> Edge(Num(b), Num(p), Num(a)) in edges
      ensures old(edges) == [] ==> r.Ok?
    {
      ghost var edges0 := edges;
      var a := 1;
      while a < aMax
        invariant 1 <= a
        invariant Valid() && edges0 <= edges && Grown(edges0, edges, aMax)
        invariant RowsDone(edges, a, aMax)
        invariant edges0 == [] ==> AllLatticeIn(edges, aMax)
      {
        ghost var before := edges;
        r := AddRow(a, aMax);
        GrownTrans(edges0, before, edges, aMax);
        if r.Err? {
          return;
        }
        RowsStep(before, edges, a, aMax);
        a := a + 1;
      }
      r := Ok(());
    }

    /** One pass of the inner loop of `createGraph`: the edges into `a`. */
    method AddRow(a: int, aMax: int) returns (r: Result<()>)
      requires Valid() && 1 <= a < aMax
      modifies this
      ensures Valid() && old(edges) <= edges && Grown(old(edges), edges, aMax)
      ensures Into(old(edges), edges, a)
      ensures r.Ok? ==> RowDone(edges, a, a, aMax)
      ensures AllLatticeIn(old(edges), aMax) ==> r.Ok? && AllLatticeIn(edges, aMax)
    {
      ghost var edges0 := edges;
      var b := 1;
      while b < a
        invariant 1 <= b <= a
        invariant Valid() && edges0 <= edges && Grown(edges0, edges, aMax)
        invariant Into(edges0, edges, a)
        invariant RowDone(edges, a, b, aMax)
        invariant AllLatticeIn(edges0, aMax) ==> AllLatticeIn(edges, aMax)
      {
        ghost var before := edges;
        r := AddCell(b, a, aMax);
        GrownTrans(edges0, before, edges, aMax);
        IntoTrans(edges0, before, edges, a);
        if r.Err? {
          return;
        }
        RowStep(before, edges, a, b, aMax);
        b := b + 1;
      }
      r := Ok(());
    }

    /** One pass of the body of the inner loop: the edge b -(a / b)-> a
        when b divides a with a prime quotient. */
    method AddCell(b: int, a: int, aMax: int) returns (r: Result<()>)
      requires Valid() && 1 <= b < a < aMax
      modifies this
      ensures Valid() && old(edges) <= edges && Grown(old(edges), edges, aMax)
      ensures edges <= old(edges) + [Edge(Num(b), Num(a / b), Num(a))] && Into(old(edges), edges, a)
      ensures r.Ok? ==> forall p :: LatticeEdge(b, p, a, aMax) ==> Edge(Num(b), Num(p), Num(a)) in edges
      ensures AllLatticeIn(old(edges), aMax) ==> r.Ok? && AllLatticeIn(edges, aMax)
    {
      if a % b == 0 {
        var prime := IsPrime(a / b);
        if prime {
          r := AddLatticeEdge(b, a, aMax);
          IntoPrefix(old(edges), edges, Edge(Num(b), Num(a / b), Num(a)), a);
          return;
        }
      }
      r := Ok(());
    }

    /** The body of the inner loop once b divides a with a prime quotient. */
    method AddLatticeEdge(b: int, a: int, aMax: int) returns (r: Result<()>)
      requires Valid() && 1 <= b < a < aMax && a % b == 0 && NoProperDivisor(a / b)
      modifies this
      ensures Valid() && old(edges) <= edges && Grown(old(edges), edges, aMax)
      ensures edges <= old(edges) + [Edge(Num(b), Num(a / b), Num(a))]
      ensures r.Ok? ==> Edge(Num(b), Num(a / b), Num(a)) in edges
      ensures AllLatticeIn(old(edges), aMax) ==> r.Ok? && AllLatticeIn(edges, aMax)
    {
      assert LatticeEdge(b, a / b, a, aMax);
      if AllLatticeIn(edges, aMax) {
        NoClash(b, a / b, a, aMax);
      }
      ghost var e := Edge(Num(b), Num(a / b), Num(a));
      ghost var before := edges;
      r := AddEdge(Num(b), Num(a / b), Num(a));
      AtMostAppended(before, edges, e);
    }

    /** Among lattice edges only, a lattice edge clashes with none. */
    lemma NoClash(b: int, p: int, a: int, aMax: int)
      requires Valid() && LatticeEdge(b, p, a, aMax)
      requires AllLatticeIn(edges, aMax)
      ensures !Clash(edges, Num(b), Num(p), Num(a))
    {
      forall e | e in edges
        ensures !((e.src == Num(b) && e.lbl == Num(p) && e.dst != Num(a)) || (e.dst == Num(a) && e.lbl == Num(p) && e.src != Num(b)))
      {
        assert IsLattice(e, aMax);
        if e.lbl == Num(p) {
          LatticeEdgesAgree(b, e.src.n, p, a, e.dst.n, aMax);
        }
      }
    }
  }
}
