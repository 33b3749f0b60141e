/** Filling a cleared store the way the graph store suite does, one
    `addEdge` after the other. */
module GraphDBSetup {
  import opened Common
  import opened Graph
  import opened GraphDB

  /** `addEdge` with a label no edge of the store carries yet: the store
      accepts it and appends it. */
  method AddFresh(db: GraphDB, f: Value, l: Value, t: Value)
    requires db.Valid() && forall e :: e in db.edges ==> e.lbl != l
    modifies db
    ensures db.Valid() && db.edges == old(db.edges) + [Edge(f, l, t)]
  {
    var r := db.AddEdge(f, l, t);
  }

  /** The suite's `addEdge` calls, one after the other, on an empty store;
      no two of them share a label. */
  method AddEach(db: GraphDB, es: seq<Edge>)
    requires db.Valid() && db.edges == []
    requires forall i, j :: 0 <= i < j < |es| ==> es[i].lbl != es[j].lbl
    modifies db
    ensures db.Valid() && db.edges == es
    decreases |es|
  {
    if es != [] {
      var init, e := es[..|es| - 1], es[|es| - 1];
      AddEach(db, init);
      forall d | d in init ensures d.lbl != e.lbl {
        var k :| 0 <= k < |init| && init[k] == d;
      }
      AddFresh(db, e.src, e.lbl, e.dst);
      assert init + [e] == es;
    }
  }

  /** A cleared store holding `es`. */
  method AddAll(es: seq<Edge>) returns (db: GraphDB)
    requires forall i, j :: 0 <= i < j < |es| ==> es[i].lbl != es[j].lbl
    ensures db.Valid() && db.edges == es
  {
    db := new GraphDB();
    AddEach(db, es);
  }
}

/** The cases of the graph store suite, each built on a freshly cleared
    store and proved of the reference store's contracts: what the suite
    asserts holds for every run, not only for the runs it makes. */
module GraphDBCases {
  import opened Common
  import opened Graph
  import opened Lattice
  import opened PathFacts
  import opened GraphDB
  import opened GraphDBSetup
  import Growth

  /** The product the suite multiplies up along a returned path. */
  function LabelProduct(ls: seq<Value>): int
  {
    if ls == [] then 1 else (if ls[0].Num? then ls[0].n else 0) * LabelProduct(ls[1..])
  }

  /** Every edge of the store is one `createGraph` adds below `aMax`. */
  ghost predicate LatticeStore(E: seq<Edge>, aMax: int)
  {
    forall e :: e in E ==> IsLattice(e, aMax)
  }

  lemma LatticeMultiplies(E: seq<Edge>, aMax: int)
    requires LatticeStore(E, aMax)
    ensures AllMultiply(E)
  {
  }

  /** On the lattice the labels of a path are numbers whose product is the
      ratio of its ends: `findPath(3, 24)` multiplies up to 8. */
  lemma {:induction false} LatticeLabelProduct(E: seq<Edge>, aMax: int, x: Value, ls: seq<Value>, y: Value)
    requires LatticeStore(E, aMax) && LabelPath(E, x, ls, y) && x.Num?
    ensures y.Num? && (forall i :: 0 <= i < |ls| ==> ls[i].Num?) && y.n == x.n * LabelProduct(ls)
    decreases |ls|
  {
    if ls != [] {
      var n :| Edge(x, ls[0], n) in E && LabelPath(E, n, ls[1..], y);
      var e := Edge(x, ls[0], n);
      assert IsLattice(e, aMax);
      LatticeLabelProduct(E, aMax, n, ls[1..], y);
      LatticeEdgeStep(x.n, ls[0].n, n.n, aMax);
      MulAssoc(x.n, ls[0].n, LabelProduct(ls[1..]));
      assert forall i :: 0 < i < |ls| ==> ls[i] == ls[1..][i - 1];
    }
  }

  /** `createGraph(1, 1, 30)` on a cleared store. */
  method BuildLattice() returns (db: GraphDB)
    ensures db.Valid() && LatticeStore(db.edges, 30)
    ensures forall b, p, a :: LatticeEdge(b, p, a, 30) ==> Edge(Num(b), Num(p), Num(a)) in db.edges
  {
    db := new GraphDB();
    var r := db.CreateGraph(30);
  }

  /** addEdge("foo", "likes", "bar"), then both lookups. */
  method AddEdgeCase() returns (forward: Result<Value>, backward: Result<Value>)
    ensures forward == Ok(Str("bar")) && backward == Ok(Str("foo"))
  {
    var db := new GraphDB();
    var r := db.AddEdge(Str("foo"), Str("likes"), Str("bar"));
    forward := db.QueryEdge(Str("foo"), Str("likes"));
    backward := db.QueryBackEdge(Str("bar"), Str("likes"));
  }

  /** The graph a -wrong1-> b -wrong2-> c, a -right-> c. */
  ghost predicate DetourGraph(E: seq<Edge>)
  {
    E == [Edge(Str("a"), Str("wrong1"), Str("b")), Edge(Str("b"), Str("wrong2"), Str("c")),
          Edge(Str("a"), Str("right"), Str("c"))]
  }

  /** The path from a to c is the single hop, not the detour. */
  lemma DetourShortest(E: seq<Edge>)
    requires DetourGraph(E)
    ensures FindPathSpec(E, Str("a"), Str("c")) == Ok([Str("right")])
  {
    var a, c := Str("a"), Str("c");
    Growth.SingleHop(E, a, c, Str("right"));
    var r := FindPathSpec(E, a, c);
    assert r.Ok? && |r.value| == 1;
    assert r.value[0] == Str("right");
    assert r.value == [Str("right")];
  }

  method ShortestPathCase() returns (r: Result<seq<Value>>)
    ensures r == Ok([Str("right")])
  {
    var db := AddAll([Edge(Str("a"), Str("wrong1"), Str("b")), Edge(Str("b"), Str("wrong2"), Str("c")),
                      Edge(Str("a"), Str("right"), Str("c"))]);
    r := db.FindPath(Str("a"), Str("c"));
    DetourShortest(db.edges);
  }

  /** The graph a -right1-> b -right2-> c -right3-> d with the cycle
      c -wrong-> b. */
  ghost predicate CycleGraph(E: seq<Edge>)
  {
    E == [Edge(Str("a"), Str("right1"), Str("b")), Edge(Str("b"), Str("right2"), Str("c")),
          Edge(Str("c"), Str("wrong"), Str("b")), Edge(Str("c"), Str("right3"), Str("d"))]
  }

  /** The only label path from a to d of at most three hops. */
  lemma CycleLabels(E: seq<Edge>, ls: seq<Value>)
    requires CycleGraph(E)
    requires LabelPath(E, Str("a"), ls, Str("d")) && |ls| <= 3
    ensures ls == [Str("right1"), Str("right2"), Str("right3")]
  {
    var n1 :| Edge(Str("a"), ls[0], n1) in E && LabelPath(E, n1, ls[1..], Str("d"));
    assert n1 == Str("b");
    var n2 :| Edge(n1, ls[1..][0], n2) in E && LabelPath(E, n2, ls[2..], Str("d"));
    assert n2 == Str("c");
    var n3 :| Edge(n2, ls[2..][0], n3) in E && LabelPath(E, n3, ls[3..], Str("d"));
    assert n3 == Str("d");
  }

  /** The search does not go round the cycle: the path from a to d runs
      right1, right2, right3. */
  lemma CycleShortest(E: seq<Edge>)
    requires CycleGraph(E)
    ensures FindPathSpec(E, Str("a"), Str("d")) == Ok([Str("right1"), Str("right2"), Str("right3")])
  {
    var a, b, c, d := Str("a"), Str("b"), Str("c"), Str("d");
    var q := [Str("right1"), Str("right2"), Str("right3")];
    assert LabelPath(E, c, q[2..], d) by {
      assert Edge(c, q[2], d) in E;
      assert LabelPath(E, d, q[3..], d);
    }
    assert LabelPath(E, b, q[1..], d) by {
      assert Edge(b, q[1], c) in E;
      assert q[1..][1..] == q[2..];
    }
    assert LabelPath(E, a, q, d) by {
      assert Edge(a, q[0], b) in E;
    }
    FindPathShortest(E, a, d, q);
    FindPathLeads(E, a, d);
    CycleLabels(E, FindPathSpec(E, a, d).value);
  }

  method CycleCase() returns (r: Result<seq<Value>>)
    ensures r == Ok([Str("right1"), Str("right2"), Str("right3")])
  {
    var db := AddAll([Edge(Str("a"), Str("right1"), Str("b")), Edge(Str("b"), Str("right2"), Str("c")),
                      Edge(Str("c"), Str("wrong"), Str("b")), Edge(Str("c"), Str("right3"), Str("d"))]);
    r := db.FindPath(Str("a"), Str("d"));
    CycleShortest(db.edges);
  }

  /** Every edge `createGraph(1, 1, 30)` adds is there, and no other. */
  ghost predicate FullLattice(E: seq<Edge>)
  {
    LatticeStore(E, 30) && forall b, p, a :: LatticeEdge(b, p, a, 30) ==> Edge(Num(b), Num(p), Num(a)) in E
  }

  /** `findPath(3, 24)` on the lattice below 30 finds labels multiplying
      to 8. */
  lemma LatticePath(E: seq<Edge>)
    requires FullLattice(E)
    ensures var r := FindPathSpec(E, Num(3), Num(24));
            r.Ok? && (forall i :: 0 <= i < |r.value| ==> r.value[i].Num?) && LabelProduct(r.value) == 8
  {
    SmallPrimes();
    assert LatticeEdge(3, 2, 6, 30) && LatticeEdge(6, 2, 12, 30) && LatticeEdge(12, 2, 24, 30);
    var q := [Num(2), Num(2), Num(2)];
    assert LabelPath(E, Num(12), q[2..], Num(24)) by {
      assert Edge(Num(12), q[2], Num(24)) in E;
      assert LabelPath(E, Num(24), q[3..], Num(24));
    }
    assert LabelPath(E, Num(6), q[1..], Num(24)) by {
      assert Edge(Num(6), q[1], Num(12)) in E;
      assert q[1..][1..] == q[2..];
    }
    assert LabelPath(E, Num(3), q, Num(24)) by {
      assert Edge(Num(3), q[0], Num(6)) in E;
    }
    FindPathShortest(E, Num(3), Num(24), q);
    FindPathLeads(E, Num(3), Num(24));
    LatticeLabelProduct(E, 30, Num(3), FindPathSpec(E, Num(3), Num(24)).value, Num(24));
  }

  method LatticePathCase() returns (r: Result<seq<Value>>)
    ensures r.Ok? && (forall i :: 0 <= i < |r.value| ==> r.value[i].Num?) && LabelProduct(r.value) == 8
  {
    var db := BuildLattice();
    r := db.FindPath(Num(3), Num(24));
    LatticePath(db.edges);
  }

  /** The people of the family tree case. */
  const Terah := Str("terah")
  const Abraham := Str("abraham")
  const Isaac := Str("isaac")
  const Jacob := Str("jacob")
  const Joseph := Str("joseph")
  const Ismael := Str("ismael")
  const Esaw := Str("esaw")
  const Simon := Str("simon")

  lemma PeopleDistinct()
    ensures Terah != Abraham && Terah != Isaac && Terah != Jacob && Terah != Joseph
    ensures Terah != Ismael && Terah != Esaw && Terah != Simon
    ensures Abraham != Isaac && Abraham != Jacob && Abraham != Joseph && Abraham != Ismael
    ensures Abraham != Esaw && Abraham != Simon
    ensures Isaac != Jacob && Isaac != Joseph && Isaac != Ismael && Isaac != Esaw && Isaac != Simon
    ensures Jacob != Joseph && Jacob != Ismael && Jacob != Esaw && Jacob != Simon
    ensures Joseph != Ismael && Joseph != Esaw && Joseph != Simon
    ensures Ismael != Esaw && Ismael != Simon && Esaw != Simon
  {
    assert Isaac.s[1] != Jacob.s[1] && Isaac.s[0] != Simon.s[0] && Jacob.s[0] != Simon.s[0];
    assert Terah.s[0] != Isaac.s[0] && Terah.s[0] != Jacob.s[0] && Terah.s[0] != Simon.s[0];
    assert Joseph.s[0] != Ismael.s[0];
  }

  /** The family tree from terah through abraham, isaac and jacob. */
  ghost predicate FamilyGraph(E: seq<Edge>)
  {
    E == FamilyEdges()
  }

  /** abraham is a common ancestor of simon and ismael, four hops in all. */
  lemma FamilyWitness(E: seq<Edge>)
    requires FamilyGraph(E)
    ensures Follows(E, Abraham, [Step(Tag(2), Isaac), Step(Tag(3), Jacob), Step(Tag(7), Simon)], Simon)
    ensures Follows(E, Abraham, [Step(Tag(5), Ismael)], Ismael)
  {
    var toSimon := [Step(Tag(2), Isaac), Step(Tag(3), Jacob), Step(Tag(7), Simon)];
    assert Follows(E, Simon, toSimon[3..], Simon);
    assert Follows(E, Jacob, toSimon[2..], Simon);
    assert Follows(E, Isaac, toSimon[1..], Simon);
    var toIsmael := [Step(Tag(5), Ismael)];
    assert Follows(E, Ismael, toIsmael[1..], Ismael);
  }

  /** Only ismael, abraham and terah lead to ismael; only simon and his
      forefathers lead to simon. */
  lemma FamilyClosed(E: seq<Edge>)
    requires FamilyGraph(E)
    ensures Closed(E, {Ismael, Abraham, Terah})
    ensures Closed(E, {Simon, Jacob, Isaac, Abraham, Terah})
  {
    PeopleDistinct();
  }

  /** The generation of everybody in the tree, counted from terah. */
  function Generation(): (depth: map<Value, int>)
    ensures depth.Keys == {Terah, Abraham, Isaac, Ismael, Jacob, Esaw, Joseph, Simon}
  {
    map[Terah := 0, Abraham := 1, Isaac := 2, Ismael := 2, Jacob := 3, Esaw := 3, Joseph := 4, Simon := 4]
  }

  lemma FamilyGraded(E: seq<Edge>)
    requires FamilyGraph(E)
    ensures Graded(E, Generation())
    ensures Generation()[Simon] == 4 && Generation()[Ismael] == 2
    ensures Generation()[Abraham] == 1 && Generation()[Terah] == 0
  {
    PeopleDistinct();
    var d := Generation();
    assert d[Terah] == 0 && d[Abraham] == 1 && d[Isaac] == 2 && d[Ismael] == 2;
    assert d[Jacob] == 3 && d[Esaw] == 3 && d[Joseph] == 4 && d[Simon] == 4;
    forall i | 0 <= i < |E| ensures E[i].src in d && E[i].dst in d && d[E[i].dst] == d[E[i].src] + 1 {
    }
  }

  /** A common ancestor of simon and ismael with at most four hops to the
      two of them is abraham. */
  lemma FamilyNearest(E: seq<Edge>, c: Value, p1: seq<Step>, p2: seq<Step>)
    requires FamilyGraph(E)
    requires Follows(E, c, p1, Simon) && Follows(E, c, p2, Ismael) && |p1| + |p2| <= 4
    ensures c == Abraham
  {
    FamilyClosed(E);
    FamilyGraded(E);
    FollowsClosed(E, {Ismael, Abraham, Terah}, c, p2, Ismael);
    FollowsClosed(E, {Simon, Jacob, Isaac, Abraham, Terah}, c, p1, Simon);
    FollowsDepth(E, Generation(), c, p1, Simon);
    FollowsDepth(E, Generation(), c, p2, Ismael);
  }

  /** The label of the k-th edge of the family tree: "p1" to "p7". */
  function Tag(k: int): Value
    requires 1 <= k <= 7
  {
    Str(['p', "1234567"[k - 1]])
  }

  lemma TagsDistinct(j: int, k: int)
    requires 1 <= j <= 7 && 1 <= k <= 7
    ensures Tag(j) == Tag(k) <==> j == k
  {
    if Tag(j) == Tag(k) {
      assert Tag(j).s[1] == Tag(k).s[1];
    }
  }

  /** The tree's edges, in the order the suite adds them. */
  function FamilyEdges(): seq<Edge>
  {
    [Edge(Terah, Tag(1), Abraham), Edge(Abraham, Tag(2), Isaac), Edge(Isaac, Tag(3), Jacob),
     Edge(Jacob, Tag(4), Joseph), Edge(Abraham, Tag(5), Ismael), Edge(Isaac, Tag(6), Esaw),
     Edge(Jacob, Tag(7), Simon)]
  }

  lemma FamilyTags()
    ensures forall i, j :: 0 <= i < j < |FamilyEdges()| ==> FamilyEdges()[i].lbl != FamilyEdges()[j].lbl
  {
    forall i, j | 0 <= i < j < |FamilyEdges()| ensures FamilyEdges()[i].lbl != FamilyEdges()[j].lbl {
      assert FamilyEdges()[i].lbl == Tag(i + 1) && FamilyEdges()[j].lbl == Tag(j + 1);
      TagsDistinct(i + 1, j + 1);
    }
  }

  /** `findCommonAncestor(simon, ismael)` answers abraham. */
  lemma FamilyAnswer(E: seq<Edge>, r: Result<(Value, seq<Step>, seq<Step>)>)
    requires FamilyGraph(E) && AncestorAnswer(E, Simon, Ismael, r)
    ensures r.Ok? && r.value.0 == Abraham
  {
    FamilyWitness(E);
    FamilyNearest(E, r.value.0, r.value.1, r.value.2);
  }

  /** The suite's seven `addEdge` calls on a cleared store. */
  method FamilyStore() returns (db: GraphDB)
    ensures db.Valid() && FamilyGraph(db.edges)
  {
    FamilyTags();
    db := AddAll(FamilyEdges());
  }

  method AncestorCase() returns (r: Result<(Value, seq<Step>, seq<Step>)>)
    ensures r.Ok? && r.value.0 == Abraham
  {
    var db := FamilyStore();
    r := db.FindCommonAncestor(Simon, Ismael);
    FamilyAnswer(db.edges, r);
  }

  /** A common ancestor of 4 and 6 on the lattice within two hops of both
      is 2, although the two also share the descendants 12 and 24. */
  lemma LatticeNearest(E: seq<Edge>, c: Value, p1: seq<Step>, p2: seq<Step>)
    requires LatticeStore(E, 30)
    requires Follows(E, c, p1, Num(4)) && Follows(E, c, p2, Num(6)) && |p1| + |p2| <= 2
    ensures c == Num(2)
  {
    LatticeMultiplies(E, 30);
    var k1 := FollowsScales(E, c, p1, Num(4));
    var k2 := FollowsScales(E, c, p2, Num(6));
    CommonDivisorBound(c.n, k2, k1, 6, 4);
    assert 4 % 2 == 0 && 6 % 2 == 0;
  }

  method LatticeAncestorCase() returns (r: Result<(Value, seq<Step>, seq<Step>)>)
    ensures r.Ok? && r.value.0 == Num(2)
  {
    var db := BuildLattice();
    r := db.FindCommonAncestor(Num(4), Num(6));
    LatticeWitness(db.edges);
    LatticeNearest(db.edges, r.value.0, r.value.1, r.value.2);
  }

  /** 2 reaches 4, 6, 8 and 10 in the hops the suite expects. */
  lemma LatticeWitness(E: seq<Edge>)
    requires FullLattice(E)
    ensures Follows(E, Num(2), [Step(Num(2), Num(4))], Num(4))
    ensures Follows(E, Num(2), [Step(Num(3), Num(6))], Num(6))
    ensures Follows(E, Num(2), [Step(Num(2), Num(4)), Step(Num(2), Num(8))], Num(8))
    ensures Follows(E, Num(2), [Step(Num(5), Num(10))], Num(10))
  {
    SmallPrimes();
    assert LatticeEdge(2, 2, 4, 30) && LatticeEdge(2, 3, 6, 30) && LatticeEdge(4, 2, 8, 30) && LatticeEdge(2, 5, 10, 30);
    var q := [Step(Num(2), Num(4)), Step(Num(2), Num(8))];
    assert Follows(E, Num(8), q[2..], Num(8));
    assert Follows(E, Num(4), q[1..], Num(8));
    assert Follows(E, Num(4), [Step(Num(2), Num(4))][1..], Num(4));
    assert Follows(E, Num(6), [Step(Num(3), Num(6))][1..], Num(6));
    assert Follows(E, Num(10), [Step(Num(5), Num(10))][1..], Num(10));
  }

  /** A common ancestor of 8 and 10 on the lattice within three hops of
      both is 2, reached by 2 -2-> 4 -2-> 8 and 2 -5-> 10. */
  lemma LatticeNearestPaths(E: seq<Edge>, c: Value, p1: seq<Step>, p2: seq<Step>)
    requires LatticeStore(E, 30)
    requires Follows(E, c, p1, Num(8)) && Follows(E, c, p2, Num(10)) && |p1| + |p2| <= 3
    ensures c == Num(2)
    ensures p1 == [Step(Num(2), Num(4)), Step(Num(2), Num(8))] && p2 == [Step(Num(5), Num(10))]
  {
    LatticeMultiplies(E, 30);
    var k1 := FollowsScales(E, c, p1, Num(8));
    var k2 := FollowsScales(E, c, p2, Num(10));
    CommonDivisorBound(c.n, k2, k1, 10, 8);
    assert 8 % 2 == 0 && 10 % 2 == 0 && 4 % 2 == 0;
    assert c == Num(2);
    assert |p1| == 2 && |p2| == 1;
    LatticeSteps(E, p1, p2);
  }

  method LatticePathsCase() returns (r: Result<(Value, seq<Step>, seq<Step>)>)
    ensures r.Ok? && r.value.0 == Num(2)
    ensures r.value.1 == [Step(Num(2), Num(4)), Step(Num(2), Num(8))] && r.value.2 == [Step(Num(5), Num(10))]
  {
    var db := BuildLattice();
    r := db.FindCommonAncestor(Num(8), Num(10));
    LatticeWitness(db.edges);
    LatticeNearestPaths(db.edges, r.value.0, r.value.1, r.value.2);
  }

  /** The two paths from 2 to 8 and 10 once their lengths are known. */
  lemma LatticeSteps(E: seq<Edge>, p1: seq<Step>, p2: seq<Step>)
    requires LatticeStore(E, 30)
    requires Follows(E, Num(2), p1, Num(8)) && |p1| == 2
    requires Follows(E, Num(2), p2, Num(10)) && |p2| == 1
    ensures p1 == [Step(Num(2), Num(4)), Step(Num(2), Num(8))] && p2 == [Step(Num(5), Num(10))]
  {
    assert IsLattice(Edge(Num(2), p2[0].l, p2[0].n), 30);
    assert Follows(E, p2[0].n, p2[1..], Num(10));
    assert p2[0].n == Num(10);
    var e0, e1 := Edge(Num(2), p1[0].l, p1[0].n), Edge(p1[0].n, p1[1].l, p1[1].n);
    assert Follows(E, p1[0].n, p1[1..], Num(8));
    assert Follows(E, p1[1].n, p1[2..], Num(8));
    assert IsLattice(e0, 30) && IsLattice(e1, 30);
    assert p1[1].n == Num(8);
    LatticeEdgeStep(2, p1[0].l.n, p1[0].n.n, 30);
    assert p1[0].n.n == 4 by {
      assert 8 % 6 != 0;
    }
  }
}
