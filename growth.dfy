/** How the searches behave when edges are appended: edges into a node
    that cannot reach the target leave `findPath` unchanged, the first edge
    into a new node is the path from its source, and a single edge is
    always the shortest path. */
module Growth {
  import opened Common
  import opened Graph

  /** A scan passes over edges into nodes outside the frontier. */
  lemma {:induction false} ScanSkipTo(E: seq<Edge>, F: set<Value>, visited: set<Value>, i: nat, j: nat, found: map<Value, Step>)
    requires i <= j <= |E|
    requires forall m :: i <= m < j ==> E[m].dst !in F
    ensures Scan(E, F, visited, i, found) == Scan(E, F, visited, j, found)
    decreases j - i
  {
    if i < j {
      ScanSkipTo(E, F, visited, i + 1, j, found);
    }
  }

  /** A scan never replaces a first step it already found. */
  lemma {:induction false} ScanKeeps(E: seq<Edge>, F: set<Value>, visited: set<Value>, i: nat, found: map<Value, Step>, n: Value)
    requires i <= |E| && n in found
    ensures n in Scan(E, F, visited, i, found) && Scan(E, F, visited, i, found)[n] == found[n]
    decreases |E| - i
  {
    if i < |E| {
      var e := E[i];
      var found' := if e.dst in F && e.src !in visited && e.src !in found then found[e.src := Step(e.lbl, e.dst)] else found;
      ScanKeeps(E, F, visited, i + 1, found', n);
    }
  }

  /** Appended edges into nodes outside the frontier do not change a scan. */
  lemma {:induction false} ScanExtend(E: seq<Edge>, extra: seq<Edge>, F: set<Value>, visited: set<Value>, i: nat, found: map<Value, Step>)
    requires i <= |E|
    requires forall e :: e in extra ==> e.dst !in F
    ensures Scan(E + extra, F, visited, i, found) == Scan(E, F, visited, i, found)
    decreases |E| - i
  {
    if i == |E| {
      forall j | |E| <= j < |E + extra| ensures (E + extra)[j].dst !in F {
        assert (E + extra)[j] == extra[j - |E|];
      }
      ScanSkipTo(E + extra, F, visited, i, |E + extra|, found);
    } else {
      assert (E + extra)[i] == E[i];
      var e := E[i];
      var found' := if e.dst in F && e.src !in visited && e.src !in found then found[e.src := Step(e.lbl, e.dst)] else found;
      ScanExtend(E, extra, F, visited, i + 1, found');
    }
  }

  lemma UniverseGrows(E: seq<Edge>, extra: seq<Edge>, t: Value)
    ensures Universe(E, t) <= Universe(E + extra, t)
  {
    forall n | n in Universe(E, t) ensures n in Universe(E + extra, t) {
      if n != t {
        var j :| 0 <= j < |E| && E[j].src == n;
        assert (E + extra)[j] == E[j];
      }
    }
  }

  /** The search only ever adds nodes. */
  lemma {:induction false} BfsKeysGrow(E: seq<Edge>, t: Value, dist: map<Value, nat>, next: map<Value, Step>, F: set<Value>, k: nat)
    requires F <= dist.Keys <= Universe(E, t)
    ensures dist.Keys <= Bfs(E, t, dist, next, F, k).0.Keys
    decreases |Universe(E, t) - dist.Keys|, |F|
  {
    if F != {} {
      var found := Scan(E, F, dist.Keys, 0, map[]);
      LevelFacts(E, t, dist, F, k);
      BfsUnfold(E, t, dist, next, F, k);
      BfsKeysGrow(E, t, Grow(dist, found, k), next + found, found.Keys, k + 1);
    }
  }

  /** The search never replaces a first step it already recorded. */
  lemma {:induction false} BfsKeepsNext(E: seq<Edge>, t: Value, dist: map<Value, nat>, next: map<Value, Step>, F: set<Value>, k: nat, n: Value)
    requires F <= dist.Keys <= Universe(E, t)
    requires next.Keys <= dist.Keys && n in next
    ensures n in Bfs(E, t, dist, next, F, k).1 && Bfs(E, t, dist, next, F, k).1[n] == next[n]
    decreases |Universe(E, t) - dist.Keys|, |F|
  {
    if F != {} {
      var found := Scan(E, F, dist.Keys, 0, map[]);
      LevelFacts(E, t, dist, F, k);
      BfsUnfold(E, t, dist, next, F, k);
      assert n !in found;
      BfsKeepsNext(E, t, Grow(dist, found, k), next + found, found.Keys, k + 1, n);
    }
  }

  /** Appended edges into nodes the search never reaches do not change it. */
  lemma {:induction false} BfsExtend(E: seq<Edge>, extra: seq<Edge>, t: Value, dist: map<Value, nat>, next: map<Value, Step>, F: set<Value>, k: nat)
    requires F <= dist.Keys <= Universe(E, t)
    requires Universe(E, t) <= Universe(E + extra, t)
    requires forall e :: e in extra ==> e.dst !in Bfs(E, t, dist, next, F, k).0
    ensures Bfs(E + extra, t, dist, next, F, k) == Bfs(E, t, dist, next, F, k)
    decreases |Universe(E, t) - dist.Keys|, |F|
  {
    if F != {} {
      var found := Scan(E, F, dist.Keys, 0, map[]);
      BfsKeysGrow(E, t, dist, next, F, k);
      ScanExtend(E, extra, F, dist.Keys, 0, map[]);
      BfsUnfold(E, t, dist, next, F, k);
      BfsUnfold(E + extra, t, dist, next, F, k);
      LevelFacts(E, t, dist, F, k);
      BfsExtend(E, extra, t, Grow(dist, found, k), next + found, found.Keys, k + 1);
    }
  }

  /** A node from which no path leads to the target is not reached. */
  lemma NotReached(E: seq<Edge>, t: Value, dist: map<Value, nat>, next: map<Value, Step>, v: Value)
    requires Searched(E, t, dist, next)
    requires forall steps :: !Follows(E, v, steps, t)
    ensures v !in dist
  {
    if v in dist {
      var p := PathFrom(E, t, dist, next, v);
    }
  }

  /** The path read off a search does not depend on which graph it was
      proved for. */
  lemma {:induction false} PathFromSame(E1: seq<Edge>, E2: seq<Edge>, t: Value, dist: map<Value, nat>, next: map<Value, Step>, x: Value)
    requires Searched(E1, t, dist, next) && Searched(E2, t, dist, next) && x in dist
    ensures PathFrom(E1, t, dist, next, x) == PathFrom(E2, t, dist, next, x)
    decreases dist[x]
  {
    if dist[x] != 0 {
      PathFromSame(E1, E2, t, dist, next, next[x].n);
    }
  }

  /** Edges appended into nodes from which `y` cannot be reached cannot lie
      on a path to `y`, and `findPath(x, y)` keeps its answer. */
  lemma FindPathExtend(E: seq<Edge>, extra: seq<Edge>, x: Value, y: Value)
    requires forall e, steps :: e in extra ==> !Follows(E, e.dst, steps, y)
    ensures FindPathSpec(E + extra, x, y) == FindPathSpec(E, x, y)
  {
    var (dist, next) := BfsFrom(E, y);
    BfsFromCorrect(E, y);
    forall e | e in extra ensures e.dst !in dist {
      NotReached(E, y, dist, next, e.dst);
    }
    UniverseGrows(E, extra, y);
    BfsExtend(E, extra, y, map[y := 0], map[], {y}, 0);
    FindPathUnfold(E, x, y, dist, next);
    FindPathUnfold(E + extra, x, y, dist, next);
    if x in dist {
      PathFromSame(E, E + extra, y, dist, next, x);
    }
  }

  /** The first scan towards a node no earlier edge leads to gives the
      source of the first appended edge that edge as its first step. */
  lemma FirstScanIntoNew(E: seq<Edge>, extra: seq<Edge>, x: Value, l: Value, y: Value)
    requires forall e :: e in E ==> e.dst != y
    requires extra != [] && extra[0] == Edge(x, l, y) && x != y
    ensures x in Scan(E + extra, {y}, {y}, 0, map[])
    ensures Scan(E + extra, {y}, {y}, 0, map[])[x] == Step(l, y)
  {
    var E' := E + extra;
    forall m | 0 <= m < |E| ensures E'[m].dst !in {y} {
      assert E'[m] == E[m];
    }
    ScanSkipTo(E', {y}, {y}, 0, |E|, map[]);
    assert E'[|E|] == Edge(x, l, y);
    var first: map<Value, Step> := map[x := Step(l, y)];
    assert Scan(E', {y}, {y}, |E|, map[]) == Scan(E', {y}, {y}, |E| + 1, first);
    ScanKeeps(E', {y}, {y}, |E| + 1, first, x);
  }

  /** The search towards that node keeps that first step. */
  lemma FirstStepIntoNew(E: seq<Edge>, extra: seq<Edge>, x: Value, l: Value, y: Value)
    requires forall e :: e in E ==> e.dst != y
    requires extra != [] && extra[0] == Edge(x, l, y) && x != y
    ensures x in BfsFrom(E + extra, y).1 && BfsFrom(E + extra, y).1[x] == Step(l, y)
  {
    var E' := E + extra;
    var d0: map<Value, nat> := map[y := 0];
    assert d0.Keys == {y};
    FirstScanIntoNew(E, extra, x, l, y);
    var found := Scan(E', {y}, d0.Keys, 0, map[]);
    BfsUnfold(E', y, d0, map[], {y}, 0);
    BfsKeepsNext(E', y, Grow(d0, found, 0), map[] + found, found.Keys, 1, x);
  }

  /** Edges appended into a node no earlier edge leads to: `findPath` from
      the source of the first of them takes that edge, the first one from
      there in insertion order. */
  lemma FirstEdgeIntoNew(E: seq<Edge>, extra: seq<Edge>, x: Value, l: Value, y: Value)
    requires forall e :: e in E ==> e.dst != y
    requires extra != [] && extra[0] == Edge(x, l, y) && x != y
    ensures FindPathSpec(E + extra, x, y) == Ok([l])
  {
    var E' := E + extra;
    FirstStepIntoNew(E, extra, x, l, y);
    var (dist, next) := BfsFrom(E', y);
    FindPathUnfold(E', x, y, dist, next);
    OneStepPath(E', y, dist, next, x);
  }

  /** A node whose recorded first step enters the target has the one-hop
      path of that step. */
  lemma OneStepPath(E: seq<Edge>, t: Value, dist: map<Value, nat>, next: map<Value, Step>, x: Value)
    requires Searched(E, t, dist, next) && x in next && next[x].n == t
    ensures x in dist && Labels(PathFrom(E, t, dist, next, x)) == [next[x].l]
  {
    assert x in dist && x != t;
    assert dist[x] != 0 by {
      assert x !in Within(E, t, 0);
    }
    PathFromStep(E, t, dist, next, x);
    assert PathFrom(E, t, dist, next, t) == [];
  }

  /** Every label of a path is the label of an edge. */
  lemma {:induction false} LabelPathLabels(E: seq<Edge>, x: Value, ls: seq<Value>, y: Value)
    requires LabelPath(E, x, ls, y)
    ensures forall l :: l in ls ==> exists e :: e in E && e.lbl == l
    decreases |ls|
  {
    if ls != [] {
      var n :| Edge(x, ls[0], n) in E && LabelPath(E, n, ls[1..], y);
      LabelPathLabels(E, n, ls[1..], y);
      forall l | l in ls ensures exists e :: e in E && e.lbl == l {
        if l == ls[0] {
          assert Edge(x, ls[0], n) in E;
        } else {
          assert l in ls[1..];
        }
      }
    }
  }

  /** Between two distinct nodes joined by an edge, `findPath` returns the
      label of one such edge. */
  lemma SingleHop(E: seq<Edge>, x: Value, y: Value, l: Value)
    requires x != y && Edge(x, l, y) in E
    ensures FindPathSpec(E, x, y).Ok?
    ensures |FindPathSpec(E, x, y).value| == 1 && Edge(x, FindPathSpec(E, x, y).value[0], y) in E
  {
    assert LabelPath(E, y, [l][1..], y);
    assert LabelPath(E, x, [l], y);
    FindPathShortest(E, x, y, [l]);
    FindPathLeads(E, x, y);
    var ls := FindPathSpec(E, x, y).value;
    assert ls != [];
    var n :| Edge(x, ls[0], n) in E && LabelPath(E, n, ls[1..], y);
  }
}
