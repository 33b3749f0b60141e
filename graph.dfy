/** Directed labelled graphs given by their list of edges, and the
    breadth-first search behind `findPath` and `findCommonAncestor`.

    The search runs backwards from a target node `t`: level k holds the
    nodes whose shortest path to `t` has k hops.  For every node it reaches
    it records the distance and the first step of a shortest path towards
    `t`, so that a forward path from any reached node can be read off. */
module Graph {
  import opened Common

  datatype Edge = Edge(src: Value, lbl: Value, dst: Value)

  /** One hop of a path, `{l, n}`: the label of the edge and the node it reaches. */
  datatype Step = Step(l: Value, n: Value)

  /** `steps` is a forward path from `x` to `y`. */
  ghost predicate Follows(E: seq<Edge>, x: Value, steps: seq<Step>, y: Value)
    decreases |steps|
  {
    if steps == [] then x == y
    else Edge(x, steps[0].l, steps[0].n) in E && Follows(E, steps[0].n, steps[1..], y)
  }

  /** The labels `ls`, followed edge by edge, lead from `x` to `y`. */
  ghost predicate LabelPath(E: seq<Edge>, x: Value, ls: seq<Value>, y: Value)
    decreases |ls|
  {
    if ls == [] then x == y
    else exists n :: Edge(x, ls[0], n) in E && LabelPath(E, n, ls[1..], y)
  }

  function Labels(steps: seq<Step>): (ls: seq<Value>)
    ensures |ls| == |steps| && forall i :: 0 <= i < |steps| ==> ls[i] == steps[i].l
  {
    if steps == [] then [] else [steps[0].l] + Labels(steps[1..])
  }

  /** The labels of a path lead along it. */
  lemma {:induction false} FollowsLabels(E: seq<Edge>, x: Value, steps: seq<Step>, y: Value)
    requires Follows(E, x, steps, y)
    ensures LabelPath(E, x, Labels(steps), y)
    decreases |steps|
  {
    if steps != [] {
      FollowsLabels(E, steps[0].n, steps[1..], y);
      assert Labels(steps)[1..] == Labels(steps[1..]);
    }
  }

  /** Each `(src, label)` pair leads to one node and each `(dst, label)`
      pair comes from one node: the two indices of the store are functions. */
  ghost predicate Functional(E: seq<Edge>)
  {
    && (forall e, e' :: e in E && e' in E && e.src == e'.src && e.lbl == e'.lbl ==> e.dst == e'.dst)
    && (forall e, e' :: e in E && e' in E && e.dst == e'.dst && e.lbl == e'.lbl ==> e.src == e'.src)
  }

  /** In a functional graph the labels of a path fix where it leads, so the
      labels `findPath` returns describe the path completely. */
  lemma {:induction false} LabelPathDetermined(E: seq<Edge>, x: Value, ls: seq<Value>, y: Value, y': Value)
    requires Functional(E)
    requires LabelPath(E, x, ls, y) && LabelPath(E, x, ls, y')
    ensures y == y'
    decreases |ls|
  {
    if ls != [] {
      var n :| Edge(x, ls[0], n) in E && LabelPath(E, n, ls[1..], y);
      var n' :| Edge(x, ls[0], n') in E && LabelPath(E, n', ls[1..], y');
      LabelPathDetermined(E, n, ls[1..], y, y');
    }
  }

  /** The sources of the edges among the first `i` whose target is in `S`. */
  function PredUpTo(E: seq<Edge>, S: set<Value>, i: nat): set<Value>
    requires i <= |E|
  {
    set j | 0 <= j < i && E[j].dst in S :: E[j].src
  }

  /** The nodes with an edge into `S`. */
  function Pred(E: seq<Edge>, S: set<Value>): set<Value>
  {
    PredUpTo(E, S, |E|)
  }

  /** Every node an edge can lead from, and `t`. */
  function Universe(E: seq<Edge>, t: Value): set<Value>
  {
    {t} + set j | 0 <= j < |E| :: E[j].src
  }

  lemma PredUpToStep(E: seq<Edge>, S: set<Value>, i: nat)
    requires i < |E|
    ensures PredUpTo(E, S, i + 1) == PredUpTo(E, S, i) + (if E[i].dst in S then {E[i].src} else {})
  {
  }

  lemma PredMember(E: seq<Edge>, S: set<Value>, j: nat)
    requires j < |E| && E[j].dst in S
    ensures E[j].src in Pred(E, S)
  {
  }

  lemma PredOfUnion(E: seq<Edge>, A: set<Value>, B: set<Value>)
    ensures Pred(E, A + B) == Pred(E, A) + Pred(E, B)
    ensures A <= B ==> Pred(E, A) <= Pred(E, B)
  {
  }

  lemma PredInUniverse(E: seq<Edge>, S: set<Value>, t: Value)
    ensures Pred(E, S) <= Universe(E, t)
  {
  }

  /** The nodes from which `t` can be reached in at most `k` hops. */
  ghost function Within(E: seq<Edge>, t: Value, k: nat): set<Value>
  {
    if k == 0 then {t} else Within(E, t, k - 1) + Pred(E, Within(E, t, k - 1))
  }

  lemma {:induction false} WithinMonotone(E: seq<Edge>, t: Value, j: nat, k: nat)
    requires j <= k
    ensures Within(E, t, j) <= Within(E, t, k)
    decreases k
  {
    if j < k {
      WithinMonotone(E, t, j, k - 1);
    }
  }

  /** The start of a path of k hops reaches its end within k hops. */
  lemma {:induction false} FollowsWithin(E: seq<Edge>, x: Value, steps: seq<Step>, y: Value)
    requires Follows(E, x, steps, y)
    ensures x in Within(E, y, |steps|)
    decreases |steps|
  {
    if steps != [] {
      var n := steps[0].n;
      FollowsWithin(E, n, steps[1..], y);
      var j :| 0 <= j < |E| && E[j] == Edge(x, steps[0].l, n);
      PredMember(E, Within(E, y, |steps| - 1), j);
    }
  }

  /** Likewise for a path given by its labels. */
  lemma {:induction false} LabelPathWithin(E: seq<Edge>, x: Value, ls: seq<Value>, y: Value)
    requires LabelPath(E, x, ls, y)
    ensures x in Within(E, y, |ls|)
    decreases |ls|
  {
    if ls != [] {
      var n :| Edge(x, ls[0], n) in E && LabelPath(E, n, ls[1..], y);
      LabelPathWithin(E, n, ls[1..], y);
      var j :| 0 <= j < |E| && E[j] == Edge(x, ls[0], n);
      PredMember(E, Within(E, y, |ls| - 1), j);
    }
  }

  /** Every recorded distance is exact: `n` reaches the target within
      `dist[n]` hops and not within fewer. */
  ghost predicate Exact(E: seq<Edge>, t: Value, dist: map<Value, nat>)
  {
    forall n :: n in dist ==>
      n in Within(E, t, dist[n]) && (dist[n] > 0 ==> n !in Within(E, t, dist[n] - 1))
  }

  /** Every reached node other than the target records an edge to a node one
      hop closer to the target. */
  ghost predicate NextOk(E: seq<Edge>, t: Value, dist: map<Value, nat>, next: map<Value, Step>)
  {
    && next.Keys == dist.Keys - {t}
    && forall n :: n in next ==>
         next[n].n in dist && dist[next[n].n] + 1 == dist[n] && Edge(n, next[n].l, next[n].n) in E
  }

  /** The first steps found by one scan lead from a new node into the frontier. */
  ghost predicate StepsInto(E: seq<Edge>, F: set<Value>, found: map<Value, Step>)
  {
    forall n :: n in found ==> found[n].n in F && Edge(n, found[n].l, found[n].n) in E
  }

  /** One pass over the edges in insertion order: the first edge from each
      unvisited node into the frontier becomes that node's first step. */
  function Scan(E: seq<Edge>, F: set<Value>, visited: set<Value>, i: nat, found: map<Value, Step>): map<Value, Step>
    requires i <= |E|
    decreases |E| - i
  {
    if i == |E| then found
    else
      var e := E[i];
      Scan(E, F, visited, i + 1,
           if e.dst in F && e.src !in visited && e.src !in found then found[e.src := Step(e.lbl, e.dst)] else found)
  }

  lemma {:induction false} ScanSpec(E: seq<Edge>, F: set<Value>, visited: set<Value>, i: nat, found: map<Value, Step>)
    requires i <= |E|
    requires found.Keys == PredUpTo(E, F, i) - visited
    requires StepsInto(E, F, found)
    ensures Scan(E, F, visited, i, found).Keys == Pred(E, F) - visited
    ensures StepsInto(E, F, Scan(E, F, visited, i, found))
    decreases |E| - i
  {
    if i < |E| {
      var e := E[i];
      var found' := if e.dst in F && e.src !in visited && e.src !in found then found[e.src := Step(e.lbl, e.dst)] else found;
      PredUpToStep(E, F, i);
      assert e in E;
      ScanSpec(E, F, visited, i + 1, found');
    }
  }

  /** What one scan from the frontier finds. */
  lemma ScanFound(E: seq<Edge>, F: set<Value>, visited: set<Value>)
    ensures Scan(E, F, visited, 0, map[]).Keys == Pred(E, F) - visited
    ensures StepsInto(E, F, Scan(E, F, visited, 0, map[]))
  {
    ScanSpec(E, F, visited, 0, map[]);
  }

  /** The distances after one more level: every node found is one hop
      further than the frontier. */
  function Grow(dist: map<Value, nat>, found: map<Value, Step>, k: nat): (d: map<Value, nat>)
    ensures d.Keys == dist.Keys + found.Keys
    ensures forall n :: n in d ==> d[n] == if n in found then k + 1 else dist[n]
  {
    dist + map n | n in found :: k + 1
  }

  /** What one level of the search adds, and why the search ends. */
  lemma LevelFacts(E: seq<Edge>, t: Value, dist: map<Value, nat>, F: set<Value>, k: nat)
    requires F <= dist.Keys <= Universe(E, t)
    ensures var found := Scan(E, F, dist.Keys, 0, map[]);
            && found.Keys == Pred(E, F) - dist.Keys
            && StepsInto(E, F, found)
            && Grow(dist, found, k).Keys <= Universe(E, t)
            && (found.Keys != {} ==> |Universe(E, t) - Grow(dist, found, k).Keys| < |Universe(E, t) - dist.Keys|)
  {
    var found := Scan(E, F, dist.Keys, 0, map[]);
    ScanFound(E, F, dist.Keys);
    PredInUniverse(E, F, t);
    if found.Keys != {} {
      assert Universe(E, t) - Grow(dist, found, k).Keys < Universe(E, t) - dist.Keys;
    }
  }

  /** The breadth-first search from level `k` on, whose frontier `F` is the
      set of nodes at distance `k`. */
  function Bfs(E: seq<Edge>, t: Value, dist: map<Value, nat>, next: map<Value, Step>, F: set<Value>, k: nat)
    : (map<Value, nat>, map<Value, Step>)
    requires F <= dist.Keys <= Universe(E, t)
    decreases |Universe(E, t) - dist.Keys|, |F|
  {
    if F == {} then (dist, next)
    else
      var found := Scan(E, F, dist.Keys, 0, map[]);
      LevelFacts(E, t, dist, F, k);
      Bfs(E, t, Grow(dist, found, k), next + found, found.Keys, k + 1)
  }

  /** The search from `t`: distances and first steps towards `t`. */
  function BfsFrom(E: seq<Edge>, t: Value): (map<Value, nat>, map<Value, Step>)
  {
    Bfs(E, t, map[t := 0], map[], {t}, 0)
  }

  /** The distances at level `k`: exactly the nodes within `k` hops, the
      frontier at distance `k`, and every edge into a node behind the
      frontier already followed. */
  ghost predicate Levels(E: seq<Edge>, t: Value, dist: map<Value, nat>, F: set<Value>, k: nat)
  {
    && t in dist && dist[t] == 0
    && dist.Keys == Within(E, t, k)
    && dist.Keys <= Universe(E, t)
    && (forall n :: n in dist ==> dist[n] <= k)
    && (forall n :: n in F <==> n in dist && dist[n] == k)
    && Pred(E, dist.Keys - F) <= dist.Keys
  }

  /** The invariant of the search at level `k`. */
  ghost predicate Inv(E: seq<Edge>, t: Value, dist: map<Value, nat>, next: map<Value, Step>, F: set<Value>, k: nat)
  {
    Levels(E, t, dist, F, k) && Exact(E, t, dist) && NextOk(E, t, dist, next)
  }

  /** What the finished search guarantees: exact distances, first steps
      one hop closer, and every node that can reach `t` reached. */
  ghost predicate Searched(E: seq<Edge>, t: Value, dist: map<Value, nat>, next: map<Value, Step>)
  {
    && t in dist && dist[t] == 0
    && Exact(E, t, dist)
    && NextOk(E, t, dist, next)
    && Pred(E, dist.Keys) <= dist.Keys
  }

  lemma InvInit(E: seq<Edge>, t: Value)
    ensures Inv(E, t, map[t := 0], map[], {t}, 0)
  {
    var dist: map<Value, nat> := map[t := 0];
    assert dist.Keys - {t} == {};
    PredOfUnion(E, {}, {});
  }

  lemma StepLevels(E: seq<Edge>, t: Value, dist: map<Value, nat>, F: set<Value>, k: nat, found: map<Value, Step>)
    requires Levels(E, t, dist, F, k)
    requires found.Keys == Pred(E, F) - dist.Keys
    ensures Levels(E, t, Grow(dist, found, k), found.Keys, k + 1)
  {
    var dist' := Grow(dist, found, k);
    PredInUniverse(E, F, t);
    PredOfUnion(E, dist.Keys - F, F);
    assert dist.Keys - F + F == dist.Keys;
    PredOfUnion(E, F, dist.Keys);
    assert dist'.Keys == Within(E, t, k + 1);
    assert dist'.Keys - found.Keys == dist.Keys;
  }

  lemma StepExact(E: seq<Edge>, t: Value, dist: map<Value, nat>, k: nat, found: map<Value, Step>)
    requires dist.Keys == Within(E, t, k) && Exact(E, t, dist)
    requires Grow(dist, found, k).Keys == Within(E, t, k + 1)
    requires found.Keys !! dist.Keys
    ensures Exact(E, t, Grow(dist, found, k))
  {
    var dist' := Grow(dist, found, k);
    var W, W' := Within(E, t, k), Within(E, t, k + 1);
    forall n | n in dist' ensures n in Within(E, t, dist'[n]) && (dist'[n] > 0 ==> n !in Within(E, t, dist'[n] - 1)) {
      if n in found {
        assert dist'[n] == k + 1 && n in W' && n !in W;
      } else {
        assert dist'[n] == dist[n];
      }
    }
  }

  lemma StepNext(E: seq<Edge>, t: Value, dist: map<Value, nat>, next: map<Value, Step>, F: set<Value>, k: nat, found: map<Value, Step>)
    requires Levels(E, t, dist, F, k) && NextOk(E, t, dist, next)
    requires found.Keys !! dist.Keys && StepsInto(E, F, found)
    ensures NextOk(E, t, Grow(dist, found, k), next + found)
  {
    var dist' := Grow(dist, found, k);
    var next' := next + found;
    forall n | n in next' ensures next'[n].n in dist' && dist'[next'[n].n] + 1 == dist'[n] && Edge(n, next'[n].l, next'[n].n) in E {
      if n in found {
        assert next'[n] == found[n];
        assert found[n].n in F;
      } else {
        assert next'[n] == next[n];
      }
    }
  }

  /** One level of the search keeps the invariant. */
  lemma BfsStep(E: seq<Edge>, t: Value, dist: map<Value, nat>, next: map<Value, Step>, F: set<Value>, k: nat)
    requires Inv(E, t, dist, next, F, k)
    ensures var found := Scan(E, F, dist.Keys, 0, map[]);
            Inv(E, t, Grow(dist, found, k), next + found, found.Keys, k + 1)
  {
    var found := Scan(E, F, dist.Keys, 0, map[]);
    LevelFacts(E, t, dist, F, k);
    StepLevels(E, t, dist, F, k, found);
    StepExact(E, t, dist, k, found);
    StepNext(E, t, dist, next, F, k, found);
  }

  /** A search with an empty frontier is finished. */
  lemma BfsDone(E: seq<Edge>, t: Value, dist: map<Value, nat>, next: map<Value, Step>, k: nat)
    requires Inv(E, t, dist, next, {}, k)
    ensures Searched(E, t, dist, next)
  {
    assert dist.Keys - {} == dist.Keys;
  }

  lemma BfsUnfold(E: seq<Edge>, t: Value, dist: map<Value, nat>, next: map<Value, Step>, F: set<Value>, k: nat)
    requires F <= dist.Keys <= Universe(E, t) && F != {}
    ensures var found := Scan(E, F, dist.Keys, 0, map[]);
            && found.Keys <= Grow(dist, found, k).Keys <= Universe(E, t)
            && Bfs(E, t, dist, next, F, k) == Bfs(E, t, Grow(dist, found, k), next + found, found.Keys, k + 1)
  {
    LevelFacts(E, t, dist, F, k);
  }

  lemma {:induction false} BfsCorrect(E: seq<Edge>, t: Value, dist: map<Value, nat>, next: map<Value, Step>, F: set<Value>, k: nat)
    requires Inv(E, t, dist, next, F, k)
    ensures Searched(E, t, Bfs(E, t, dist, next, F, k).0, Bfs(E, t, dist, next, F, k).1)
    decreases |Universe(E, t) - dist.Keys|, |F|
  {
    if F == {} {
      BfsDone(E, t, dist, next, k);
    } else {
      var found := Scan(E, F, dist.Keys, 0, map[]);
      LevelFacts(E, t, dist, F, k);
      BfsUnfold(E, t, dist, next, F, k);
      BfsStep(E, t, dist, next, F, k);
      BfsCorrect(E, t, Grow(dist, found, k), next + found, found.Keys, k + 1);
    }
  }

  lemma BfsFromCorrect(E: seq<Edge>, t: Value)
    ensures Searched(E, t, BfsFrom(E, t).0, BfsFrom(E, t).1)
  {
    InvInit(E, t);
    BfsCorrect(E, t, map[t := 0], map[], {t}, 0);
  }

  /** A finished search reached every node within any number of hops. */
  lemma {:induction false} SearchedCoversWithin(E: seq<Edge>, t: Value, dist: map<Value, nat>, next: map<Value, Step>, k: nat)
    requires Searched(E, t, dist, next)
    ensures Within(E, t, k) <= dist.Keys
  {
    if k > 0 {
      SearchedCoversWithin(E, t, dist, next, k - 1);
      PredOfUnion(E, Within(E, t, k - 1), dist.Keys);
    }
  }

  /** A node within `j` hops of the target is found at distance at most `j`. */
  lemma SearchedShortest(E: seq<Edge>, t: Value, dist: map<Value, nat>, next: map<Value, Step>, x: Value, j: nat)
    requires Searched(E, t, dist, next)
    requires x in Within(E, t, j)
    ensures x in dist && dist[x] <= j
  {
    SearchedCoversWithin(E, t, dist, next, j);
    if dist[x] > j {
      WithinMonotone(E, t, j, dist[x] - 1);
    }
  }

  /** The forward path from a reached node to the target, read off the
      recorded first steps. */
  function PathFrom(E: seq<Edge>, t: Value, dist: map<Value, nat>, next: map<Value, Step>, x: Value): (p: seq<Step>)
    requires Searched(E, t, dist, next)
    requires x in dist
    ensures Follows(E, x, p, t) && |p| == dist[x]
    decreases dist[x]
  {
    if dist[x] == 0 then
      assert x in Within(E, t, 0);
      []
    else
      var s := next[x];
      [s] + PathFrom(E, t, dist, next, s.n)
  }

  lemma {:induction false} LabelsAppend(p: seq<Step>, q: seq<Step>)
    ensures Labels(p + q) == Labels(p) + Labels(q)
  {
  }

  /** A finished search reached the start of every path to the target,
      at a distance no longer than the path. */
  lemma Reached(E: seq<Edge>, t: Value, dist: map<Value, nat>, next: map<Value, Step>, x: Value, steps: seq<Step>)
    requires Searched(E, t, dist, next)
    requires Follows(E, x, steps, t)
    ensures x in dist && dist[x] <= |steps|
  {
    FollowsWithin(E, x, steps, t);
    SearchedShortest(E, t, dist, next, x, |steps|);
  }

  /** A node with paths to both `a` and `b` is reached by both searches, no
      further away than its paths are long. */
  lemma ReachedBoth(E: seq<Edge>, a: Value, b: Value, distA: map<Value, nat>, nextA: map<Value, Step>,
                    distB: map<Value, nat>, nextB: map<Value, Step>, c: Value, q1: seq<Step>, q2: seq<Step>)
    requires Searched(E, a, distA, nextA) && Searched(E, b, distB, nextB)
    requires Follows(E, c, q1, a) && Follows(E, c, q2, b)
    ensures c in distA.Keys * distB.Keys && distA[c] + distB[c] <= |q1| + |q2|
  {
    Reached(E, a, distA, nextA, c, q1);
    Reached(E, b, distB, nextB, c, q2);
  }

  /** When the two searches share no node, no node has paths to both targets. */
  lemma NoneCommon(E: seq<Edge>, a: Value, b: Value, distA: map<Value, nat>, nextA: map<Value, Step>,
                   distB: map<Value, nat>, nextB: map<Value, Step>)
    requires Searched(E, a, distA, nextA) && Searched(E, b, distB, nextB)
    requires distA.Keys * distB.Keys == {}
    ensures forall c, q1, q2 :: !(Follows(E, c, q1, a) && Follows(E, c, q2, b))
  {
    forall c, q1, q2 | Follows(E, c, q1, a) && Follows(E, c, q2, b) ensures false {
      ReachedBoth(E, a, b, distA, nextA, distB, nextB, c, q1, q2);
    }
  }

  /** A shared node with the least sum of distances is a nearest common ancestor. */
  lemma NearestCommon(E: seq<Edge>, a: Value, b: Value, distA: map<Value, nat>, nextA: map<Value, Step>,
                      distB: map<Value, nat>, nextB: map<Value, Step>, best: Value)
    requires Searched(E, a, distA, nextA) && Searched(E, b, distB, nextB)
    requires best in distA && best in distB
    requires forall c :: c in distA.Keys * distB.Keys ==> distA[best] + distB[best] <= distA[c] + distB[c]
    ensures forall c, q1, q2 :: Follows(E, c, q1, a) && Follows(E, c, q2, b) ==> distA[best] + distB[best] <= |q1| + |q2|
  {
    forall c, q1, q2 | Follows(E, c, q1, a) && Follows(E, c, q2, b) ensures distA[best] + distB[best] <= |q1| + |q2| {
      ReachedBoth(E, a, b, distA, nextA, distB, nextB, c, q1, q2);
    }
  }

  /** `findPath(x, y)`: the labels of a shortest path from `x` to `y`, by a
      breadth-first search backwards from `y`. */
  function FindPathSpec(E: seq<Edge>, x: Value, y: Value): Result<seq<Value>>
  {
    BfsFromCorrect(E, y);
    var (dist, next) := BfsFrom(E, y);
    if x in dist then Ok(Labels(PathFrom(E, y, dist, next, x))) else Err(NoPath)
  }

  /** The path from a node other than the target starts with its recorded step. */
  lemma PathFromStep(E: seq<Edge>, t: Value, dist: map<Value, nat>, next: map<Value, Step>, x: Value)
    requires Searched(E, t, dist, next) && x in dist && dist[x] != 0
    ensures next[x].n in dist && dist[next[x].n] < dist[x]
    ensures Labels(PathFrom(E, t, dist, next, x)) == [next[x].l] + Labels(PathFrom(E, t, dist, next, next[x].n))
  {
    LabelsAppend([next[x]], PathFrom(E, t, dist, next, next[x].n));
  }

  lemma FindPathUnfold(E: seq<Edge>, x: Value, y: Value, dist: map<Value, nat>, next: map<Value, Step>)
    requires (dist, next) == BfsFrom(E, y)
    ensures Searched(E, y, dist, next)
    ensures FindPathSpec(E, x, y) == if x in dist then Ok(Labels(PathFrom(E, y, dist, next, x))) else Err(NoPath)
  {
    BfsFromCorrect(E, y);
  }

  /** The labels returned lead from `x` to `y`. */
  lemma FindPathLeads(E: seq<Edge>, x: Value, y: Value)
    ensures FindPathSpec(E, x, y).Ok? ==> LabelPath(E, x, FindPathSpec(E, x, y).value, y)
  {
    BfsFromCorrect(E, y);
    var (dist, next) := BfsFrom(E, y);
    if x in dist {
      FollowsLabels(E, x, PathFrom(E, y, dist, next, x), y);
    }
  }

  /** No path is shorter than the one returned, and when none is returned
      there is none at all. */
  lemma FindPathShortest(E: seq<Edge>, x: Value, y: Value, q: seq<Value>)
    requires LabelPath(E, x, q, y)
    ensures FindPathSpec(E, x, y).Ok? && |FindPathSpec(E, x, y).value| <= |q|
  {
    BfsFromCorrect(E, y);
    var (dist, next) := BfsFrom(E, y);
    LabelPathWithin(E, x, q, y);
    SearchedShortest(E, y, dist, next, x, |q|);
  }

  /** The only failure is the absence of a path. */
  lemma FindPathFails(E: seq<Edge>, x: Value, y: Value)
    ensures FindPathSpec(E, x, y).Err? ==> FindPathSpec(E, x, y).error == NoPath
  {
  }
}
