# vercast core in Dafny

This project models the core of vercast, a version-control layer for
JavaScript objects. The core has three parts:

- **The scheduler** (`scheduler.js`). It is a one-shot join over named
  conditions.
  - `register(conds, cb)` creates a registration whose counter is
    `conds.length`. It appends the registration to the list of every
    listed condition, once per occurrence.
  - `notify(cond)` walks that condition's list from the end to the start
    and decrements each entry's counter. It hands every callback whose
    counter reaches zero to `setTimeout`, then deletes the list.
  - The model is the class `Scheduler.Scheduler`. It holds:
    - the condition map `sched`, from a condition to a sequence of
      registration ids;
    - the counters `count`, indexed by registration id;
    - the sequence `scheduled` of ids handed to the event loop.

  Its invariant is `Consistent` together with `ScheduledOnce`:
  - every counter equals the number of list entries that still name its
    registration;
  - every scheduled registration has a zero counter and was scheduled once.

  From this invariant the model proves that a callback runs once every
  condition it named has been notified, never before, and only once.
- **The graph store contract** (`test/graphDB-test.js`). This is a suite
  that any `graphDB` implementation must pass.
  - The store holds labelled directed edges. It keeps a forward index
    `(from, label) -> to` and a backward index `(to, label) -> from`.
  - `findPath` returns the labels of a path with the fewest hops.
  - `findCommonAncestor` returns a nearest common ancestor and the forward
    paths of `{l, n}` steps from it to each node.

  The store implementation is not part of this model. The class
  `GraphDB.GraphDB` is a reference store written to that contract:
  - a search runs breadth-first backwards from the target over the edges in
    insertion order, with a visited set;
  - the methods are proved against pure specification functions
    (`Graph.BfsFrom`, `Graph.FindPathSpec`).

  The suite's builder `createGraph`/`isPrime` is modelled as the nested
  loops it is. Every test case of the suite is proved for all runs of the
  reference store (module `GraphDBCases`).
- **The version graph contract** (`test/simpleVersionGraph-test.js`).
  - `recordTrans` records a patch-carrying transition.
  - `getMergeStrategy` picks the common ancestor and orders the two
    branches by weight.
  - `getPatches` reads back the patches along a path.
  - `recordMerge` records a merged version as two edges.

  The implementation is not part of this model. The class
  `VersionGraph.VersionGraph` is a reference version graph built on a
  `GraphDB.GraphDB`:
  - the store's edge number i carries the label `Num(i)`;
  - the transition log keeps each edge's patches and weight.

  Module `MergeProperties` proves the round trip of `recordMerge` and the
  weight ordering on scaling graphs. Module `VersionGraphCases` proves the
  suite's lattice cases.

The lattice cases are the suites' divisor lattice: the numbers 1 to 29,
with an edge from b to a whenever a is b times a prime. Module `PathFacts`
holds the facts about paths that pin down what a search must answer on the
lattice and on the family tree.

## Model

| member | source | states |
|---|---|---|
| Scheduler.Scheduler.constructor | scheduler.js:2 | The condition map starts empty, with no registrations and nothing scheduled; the invariant holds. |
| Scheduler.Scheduler.Register | scheduler.js:3-13 | The new registration gets the next id and a counter equal to the number of listed conditions. Each condition's list is extended by the new id once per occurrence of that condition. Other lists and earlier counters are unchanged, and nothing is scheduled. The new registration awaits exactly the listed conditions; every other registration awaits what it did before. The invariant is kept. |
| Scheduler.Scheduler.Notify | scheduler.js:15-28 | The condition's list is deleted and every other list is untouched. Each counter drops by the number of entries its registration has on the list. Exactly the registrations in `Due` are appended to `scheduled`, and each of them was awaiting only this condition. A condition with no list changes nothing, so a second notify has no effect. The invariant is kept. |
| Scheduler.Walk | scheduler.js:18-25 | The backward loop from index `cbs.length` (out of range, skipped) down to 0 decrements once per entry. It schedules exactly `Due` of the counters before the walk. |
| Scheduler.AppendAllAt | scheduler.js:6-12 | After the loop over the conditions, the list of c is its old list followed by one copy of the id per occurrence of c; c has a list afterwards iff it had one or is listed. |
| Scheduler.RegisterPreserves | scheduler.js:4-12 | `register` keeps every counter equal to the number of entries naming its registration, and keeps every entry naming an existing registration. |
| Scheduler.RegisterAwaiting | scheduler.js:6-12 | After `register`, the new registration awaits exactly the listed conditions, and every other one awaits the same set as before. |
| Scheduler.NotifyPreserves | scheduler.js:16-27 | Deleting the notified list takes away exactly the decrements the walk made, so the counters again equal the entries left. |
| Scheduler.NotifyFiresLast | scheduler.js:21-24 | Under the invariant, a registration is scheduled by notify(c) iff c is the only condition it still awaits (both directions). |
| Scheduler.NotifyDue | scheduler.js:21-24 | Every registration one notify schedules had a positive counter, which the walk brings to exactly zero. |
| Scheduler.NotifySchedulesOnce | scheduler.js:18-25 | After a notify, every scheduled registration has a zero counter and appears once in `scheduled`. |
| Scheduler.NotifyKeeps | scheduler.js:16-27 | Notify keeps the index consistent and the scheduling one-shot, and every registration it schedules awaited only the notified condition. |
| Scheduler.DueMembership | scheduler.js:18-24 | A registration is scheduled by a walk iff its counter is positive and at most its number of entries in the list. |
| Scheduler.DueDistinct | scheduler.js:18-24 | One walk never schedules a registration twice, even when the registration has several entries on the list. |
| Scheduler.DueHasFiring | scheduler.js:21-23 | The entry whose decrement brings a counter to zero has its registration scheduled. |
| Scheduler.DueReversed | scheduler.js:18-24 | Callbacks that fall due in one walk are scheduled in reverse order of the list positions where their counters reach zero. |
| Scheduler.NeverDue | scheduler.js:4-6 | A registration with a zero counter is never scheduled. This includes one registered on no conditions, whose counter starts at 0 and which `register` puts on no list. |
| Scheduler.NotifySingle | scheduler.js:15-28 | Notifying a condition whose list holds registration 0 alone decrements its counter by one, and schedules it iff that was its last outstanding condition. |
| Scheduler.JoinExample | scheduler.js:3-28 | After `register([A, B])`, `notify(A)` schedules nothing, then `notify(B)` schedules the callback once, and a further `notify(A)` schedules nothing more. |
| Lattice.IsPrime | test/graphDB-test.js:8-13 | The trial-division loop answers true iff x has no divisor d with 2 <= d < x. The same holds for the copy at test/simpleVersionGraph-test.js:15-20. |
| Lattice.LatticeEdgeStep | test/graphDB-test.js:17-18 | An edge the builder adds goes from b to b * p, with a prime label p >= 2. |
| Lattice.LatticeEdgesAgree | test/graphDB-test.js:17-18 | Two builder edges with the same label share their source iff they share their target, so the builder never gives an index key two partners. |
| GraphDB.GraphDB.constructor | test/graphDB-test.js:4-7 | A new store is empty and its two indices agree with its edges. |
| GraphDB.GraphDB.Clear | test/graphDB-test.js:5-7 | `clear` leaves the store empty with consistent indices. |
| GraphDB.GraphDB.AddEdge | test/graphDB-test.js:35-44 | The edge is accepted iff it gives neither `(from, label)` nor `(to, label)` a second partner. A refused edge yields `DuplicateEdge` and changes nothing. An accepted edge is then answered by both `queryEdge` and `queryBackEdge`. Adding the same edge again changes nothing. The edges afterwards are exactly the old ones plus the accepted one. |
| GraphDB.GraphDB.QueryEdge | test/graphDB-test.js:36-37 | `queryEdge(f, l)` returns t iff the edge f -l-> t is in the store, and fails with `NotFound` otherwise. |
| GraphDB.GraphDB.QueryBackEdge | test/graphDB-test.js:43-44 | `queryBackEdge(t, l)` returns f iff the edge f -l-> t is in the store, and fails with `NotFound` otherwise. |
| GraphDB.GraphDB.ValidFunctional | test/graphDB-test.js:40-45 | In the store, each `(from, label)` leads to one node and each `(to, label)` comes from one node. |
| GraphDB.ClashByIndex | test/graphDB-test.js:35-44 | The two indices decide whether a new edge clashes with a stored one. |
| GraphDB.IndexedInsert | test/graphDB-test.js:35-44 | An edge with two new keys, once entered in both indices, keeps them exact: every stored edge is in both indices, and every index entry is a stored edge. |
| GraphDB.GraphDB.ScanEdges | test/graphDB-test.js:103-110 | One pass over the edges in insertion order finds, for each unvisited node with an edge into the frontier, its first such edge (`Graph.ScanFound`). |
| GraphDB.GraphDB.Explore | test/graphDB-test.js:103-110 | The level-by-level loop computes `Graph.BfsFrom` and terminates on graphs with cycles, because the visited set only grows. |
| Graph.BfsFromCorrect | test/graphDB-test.js:94-110 | The backward search ends with exact hop distances and a first step one hop closer for every reached node, and it reaches every node that has a path to the target. |
| Graph.PathFrom | test/graphDB-test.js:71-75 | The steps read off the search form a forward `{l, n}` path from the node to the target, as many hops long as the node's distance. |
| GraphDB.TraceLabels | test/graphDB-test.js:84-90 | The loop that walks the recorded steps from x collects exactly the labels of `PathFrom`. |
| GraphDB.GraphDB.FindPath | test/graphDB-test.js:80-112 | `findPath` computes `FindPathSpec` of the store's edges (see the three lemmas below). |
| Graph.FindPathLeads | test/graphDB-test.js:84-90 | The labels `findPath` returns trace a directed path from x to y. |
| Graph.FindPathShortest | test/graphDB-test.js:94-101 | If any label path leads from x to y, `findPath` succeeds with no more hops than that path. |
| Graph.FindPathFails | test/graphDB-test.js:80 | The only error `findPath` reports is `NoPath`; with `FindPathShortest`, it does so only when no path exists. |
| Graph.LabelPathDetermined | test/graphDB-test.js:40-45 | In a store with functional indices, the labels of a path from x fix where it ends. |
| Graph.NoneCommon | test/graphDB-test.js:48-77 | When the two backward searches share no node, no node has paths to both inputs. |
| Graph.NearestCommon | test/graphDB-test.js:48-77 | A shared node with the least sum of distances is at most as far, in total hops, as any common ancestor's pair of paths. |
| GraphDB.GraphDB.Closest | test/graphDB-test.js:48-77 | The loop picks a node of the common set with the least sum of the two distances. |
| GraphDB.GraphDB.FindCommonAncestor | test/graphDB-test.js:48-77 | The answer is a node with forward `{l, n}` paths to both inputs, whose hop counts add up to no more than those of any common ancestor's paths. When no node leads to both, the answer is `NoCommonAncestor`, and that error is reported only then. |
| GraphDB.GraphDB.CreateGraph | test/graphDB-test.js:14-30 | The builder adds only edges b -(a/b)-> a with b < a < aMax, b dividing a and a/b prime. On success it has added every such edge. On an empty store it always succeeds. |
| GraphDB.GraphDB.AddRow | test/graphDB-test.js:16-25 | The inner loop adds every lattice edge into a. Every edge it appends is a lattice edge into a. On a lattice-only store it never fails. |
| GraphDB.GraphDB.AddCell | test/graphDB-test.js:17-24 | One iteration appends nothing or the single edge b -(a/b)-> a, and appends it only when it is a lattice edge (b divides a, a/b prime). When it succeeds, every lattice edge from b into a is stored. |
| GraphDB.GraphDB.AddLatticeEdge | test/graphDB-test.js:18-21 | The lattice edge is stored, nothing else is appended, and a store holding only lattice edges accepts it. |
| GraphDB.GraphDB.NoClash | test/graphDB-test.js:17-21 | Among lattice edges, no lattice edge clashes with another. |
| GraphDBSetup.AddFresh | test/graphDB-test.js:35 | `addEdge` with a label not yet stored is accepted and appended. |
| GraphDBSetup.AddEach | test/graphDB-test.js:51-57 | A run of `addEdge` calls with distinct labels on a cleared store stores exactly those edges, in order. |
| GraphDBCases.AddEdgeCase | test/graphDB-test.js:33-46 | After `addEdge("foo", "likes", "bar")`, `queryEdge("foo", "likes")` is "bar" and `queryBackEdge("bar", "likes")` is "foo". |
| GraphDBCases.LatticeLabelProduct | test/graphDB-test.js:85-89 | On the lattice, the labels of any path are numbers whose product is the ratio of its ends. |
| GraphDBCases.LatticePath | test/graphDB-test.js:83-90 | On the full lattice below 30, `findPath(3, 24)` succeeds with labels whose product is 8. |
| GraphDBCases.LatticePathCase | test/graphDB-test.js:81-93 | The reference store, after `createGraph(1, 1, 30)`, answers `findPath(3, 24)` with labels multiplying to 8. |
| GraphDBCases.DetourShortest | test/graphDB-test.js:96-100 | With a -wrong1-> b -wrong2-> c and a -right-> c, `findPath(a, c)` is `["right"]`. |
| GraphDBCases.ShortestPathCase | test/graphDB-test.js:94-102 | The reference store answers that case with `["right"]`. |
| GraphDBCases.CycleLabels | test/graphDB-test.js:105-110 | In the cycle graph, the only label path from a to d of at most three hops is right1, right2, right3. |
| GraphDBCases.CycleShortest | test/graphDB-test.js:105-110 | With the cycle c -wrong-> b, `findPath(a, d)` is `["right1", "right2", "right3"]`. |
| GraphDBCases.CycleCase | test/graphDB-test.js:103-112 | The reference store answers that case with `["right1", "right2", "right3"]`. |
| GraphDBCases.FamilyNearest | test/graphDB-test.js:51-59 | In the family tree, any common ancestor of simon and ismael with at most four hops to the two of them is abraham. |
| GraphDBCases.FamilyAnswer | test/graphDB-test.js:58-59 | Any answer meeting the `findCommonAncestor` contract for simon and ismael is abraham. |
| GraphDBCases.AncestorCase | test/graphDB-test.js:49-61 | The reference store answers `findCommonAncestor("simon", "ismael")` with abraham. |
| GraphDBCases.LatticeNearest | test/graphDB-test.js:64-66 | On the lattice, a common ancestor of 4 and 6 within two hops in all is 2, not 1, although 12 and 24 are common descendants. |
| GraphDBCases.LatticeAncestorCase | test/graphDB-test.js:62-68 | The reference store answers `findCommonAncestor(4, 6)` with 2. |
| GraphDBCases.LatticeNearestPaths | test/graphDB-test.js:71-75 | On the lattice, a nearest answer for 8 and 10 is 2, with the paths `[{2,4},{2,8}]` and `[{5,10}]`. |
| GraphDBCases.LatticeSteps | test/graphDB-test.js:74-75 | From 2, the only two-hop path to 8 and the only one-hop path to 10 on the lattice are those steps. |
| GraphDBCases.LatticePathsCase | test/graphDB-test.js:69-77 | The reference store answers `findCommonAncestor(8, 10)` with 2 and exactly those two paths. |
| PathFacts.FollowsClosed | test/graphDB-test.js:51-59 | A path into a set closed under predecessors starts inside it. |
| PathFacts.FollowsDepth | test/graphDB-test.js:51-59 | In a graph whose edges each climb one generation, a path has as many hops as it climbs. |
| PathFacts.FollowsScales | test/graphDB-test.js:64-75 | Along a path of edges that multiply by primes, the target is the start times a factor. The factor is 1 for no hops, at least 2 otherwise, and a prime for one hop. |
| PathFacts.CommonDivisorBound | test/simpleVersionGraph-test.js:55 | A common divisor of two different multiples is at most their difference, which bounds every common ancestor on the lattice. |
| Growth.FindPathExtend | test/simpleVersionGraph-test.js:174-176 | Edges appended into nodes from which no path leads to y leave `findPath(x, y)` unchanged. |
| Growth.BfsKeysGrow | test/graphDB-test.js:103-110 | The backward search only ever adds nodes to those it has reached. |
| Growth.BfsKeepsNext | test/graphDB-test.js:103-110 | The backward search never replaces a first step it has recorded. |
| Growth.BfsExtend | test/simpleVersionGraph-test.js:174-176 | Appending edges into nodes the search never reaches leaves the whole search unchanged. |
| Growth.FirstScanIntoNew | test/simpleVersionGraph-test.js:170-171 | When edges are appended into a node no earlier edge enters, the first scan gives the source of the first of them that edge as its first step. |
| Growth.FirstEdgeIntoNew | test/simpleVersionGraph-test.js:170-171 | Then `findPath` from that source to the node is the label of the first appended edge, even when a later appended edge joins the same two nodes. |
| Growth.SingleHop | test/simpleVersionGraph-test.js:170-172 | Between distinct nodes joined by an edge, `findPath` returns a single label of such an edge. |
| VersionGraph.InvertPatches | test/simpleVersionGraph-test.js:179-182 | The helper keeps the number of patches (see the three lemmas below). |
| VersionGraph.InvertPatchesAt | test/simpleVersionGraph-test.js:179-182 | The i-th inverted patch wraps the i-th patch from the end: map to `inv`, then reverse. |
| VersionGraph.InvertPatchesAppend | test/simpleVersionGraph-test.js:179-182 | Inverting a concatenation inverts both parts and swaps them. |
| VersionGraph.InvertPatchesUndo | test/simpleVersionGraph-test.js:173-176 | Under any patch semantics where an inverted patch undoes its patch, applying the inverted patches after the patches restores the start. |
| VersionGraph.VersionGraph.constructor | test/simpleVersionGraph-test.js:9-12 | A version graph over an empty store starts with an empty log, and the store's edges and the log agree. |
| VersionGraph.VersionGraph.Record | test/simpleVersionGraph-test.js:45 | A transition is stored as a fresh edge and appended to the log. The store accepts it because its label is new. |
| VersionGraph.VersionGraph.RecordTrans | test/simpleVersionGraph-test.js:43-46 | `recordTrans` always reports success and appends exactly one transition carrying the patch and the weight. |
| VersionGraph.PatchesOfSnoc | test/simpleVersionGraph-test.js:100-113 | The patches of a path with one more label are those of the path followed by that edge's patches. |
| VersionGraph.CollectPatches | test/simpleVersionGraph-test.js:100-113 | The loop over the labels of a path concatenates each edge's patches (`PatchesOf`). |
| VersionGraph.VersionGraph.GetPatches | test/simpleVersionGraph-test.js:96-113 | `getPatches(v1, v2)` is the concatenated patches along the path `findPath(v1, v2)` returns, or that search's error. |
| VersionGraph.VersionGraph.Weigh | test/simpleVersionGraph-test.js:69-78 | The loop computes the accumulated weight of a path. |
| VersionGraph.VersionGraph.GetMergeStrategy | test/simpleVersionGraph-test.js:48-95 | `(V1, V2)` is `(v1, v2)` or `(v2, v1)`, and it is `(v1, v2)` exactly as given when `resolve` holds. Without `resolve`, the weight from x to V1 is at least that to V2. x is a nearest common ancestor of V1 and V2, and the merge info records x, V1, V2 and both path weights. When v1 and v2 have no common ancestor, the result is `NoCommonAncestor`. |
| VersionGraph.VersionGraph.RecordMerge | test/simpleVersionGraph-test.js:163-183 | Two transitions are appended: V1 -> newV with the accepted patches and the weight of the V2 branch, and V2 -> newV with the inverted conflicting patches followed by `getPatches(x, V1)` and the weight of the V1 branch. The call fails, changing nothing, exactly when `getPatches(x, V1)` fails. |
| VersionGraph.VersionGraph.CreateGraph | test/simpleVersionGraph-test.js:21-37 | The builder records only `mult` transitions b -> a with b < a < aMax, b dividing a and weight a/b prime, and records every one of them. |
| VersionGraph.VersionGraph.RecordRow | test/simpleVersionGraph-test.js:23-32 | The inner loop records every lattice transition into a and nothing else. |
| VersionGraph.RowStep | test/simpleVersionGraph-test.js:24-31 | One inner iteration keeps every lattice transition from a source up to b recorded. |
| VersionGraph.RowsStep | test/simpleVersionGraph-test.js:22-34 | One outer iteration keeps every lattice transition into a target up to a recorded. |
| MergeProperties.MergedRecorded | test/simpleVersionGraph-test.js:170 | After a merge, the store's edges and the log still agree. |
| MergeProperties.PatchesOfGrow | test/simpleVersionGraph-test.js:174-176 | Labels already in the log read the same patches after the log grows. |
| MergeProperties.PathLabelsRecorded | test/simpleVersionGraph-test.js:169 | Every label on a path of the version graph names an entry of the log. |
| MergeProperties.OnlyMergeEdge | test/simpleVersionGraph-test.js:170-176 | When the heads differ, the only edge from a merged head into a fresh merged version is the one the merge recorded from it. |
| MergeProperties.FreshUnreached | test/simpleVersionGraph-test.js:174 | No path leads from a version no edge touches to any other version. |
| MergeProperties.MergeFirstReadBack | test/simpleVersionGraph-test.js:171-172 | `getPatches(V1, newV)` is the accepted patches, also when V1 and V2 are the same version. |
| MergeProperties.MergeSecondReadBack | test/simpleVersionGraph-test.js:175-176 | When V2 differs from V1, `getPatches(V2, newV)` is the inverted conflicting patches followed by `getPatches(x, V1)`. |
| MergeProperties.MergeKeepsBase | test/simpleVersionGraph-test.js:174-176 | The merge leaves `getPatches(x, V1)` as it was. |
| MergeProperties.MergeRoundTrip | test/simpleVersionGraph-test.js:138-183 | After `recordMerge` into a fresh version, `getPatches(V1, newV)` is the accepted patches. `getPatches(V2, newV)` is the inverted conflicting patches followed by `getPatches(x, V1)`, or, when V2 is V1 itself, the accepted patches, because the first merge edge is found first. `getPatches(x, V1)` is unchanged. |
| MergeProperties.ScaleStep | test/simpleVersionGraph-test.js:25 | One more edge of a scaling graph multiplies the ratio of a path's ends by its weight. |
| MergeProperties.PathScales | test/simpleVersionGraph-test.js:25 | On a graph where each edge multiplies its source by its weight factor, a path's weight is the ratio of its ends. |
| MergeProperties.StartScales | test/simpleVersionGraph-test.js:25 | On such a graph, a path into a positive version starts at a positive version. |
| MergeProperties.HeavierIsLarger | test/simpleVersionGraph-test.js:69-78 | On such a graph, the heavier head that `getMergeStrategy` makes V1 is the larger number: V1 >= V2. |
| MergeProperties.MergeKeepsScaling | test/simpleVersionGraph-test.js:147-161 | Merging into `V1 * V2 / x`, with each merge edge weighing what the other branch weighed, keeps the graph scaling. So a later `getMergeStrategy` again makes the larger head V1. |
| MergeProperties.ScalingAppend | test/simpleVersionGraph-test.js:154-158 | Two transitions that scale their source keep a scaling log scaling. |
| MergeProperties.MergeArith | test/simpleVersionGraph-test.js:154-155 | With V1 = x*w1 and V2 = x*w2, each merge edge multiplies its head to `V1 * V2 / x`. |
| VersionGraphCases.LatticeLogMultiplies | test/simpleVersionGraph-test.js:21-37 | A log of lattice transitions makes every edge multiply its source by a prime. |
| VersionGraphCases.LatticePatches | test/simpleVersionGraph-test.js:103-109 | On the lattice, the patches along any path are all `mult`, and their amounts multiply to the ratio of its ends. |
| VersionGraphCases.LatticeHop | test/simpleVersionGraph-test.js:25 | Each lattice transition b -> a is an edge of the store. |
| VersionGraphCases.LatticeWitness | test/simpleVersionGraph-test.js:54 | On the lattice, 2 reaches 18 in two hops and 14 in one. |
| VersionGraphCases.LatticeGetPatches | test/simpleVersionGraph-test.js:100-113 | On the lattice, `getPatches(2, 18)` succeeds with only `mult` patches whose amounts multiply to 9. |
| VersionGraphCases.GetPatchesCase | test/simpleVersionGraph-test.js:96-113 | The reference version graph, after `createGraph(1, 1, 30)`, answers `getPatches(2, 18)` that way. |
| VersionGraphCases.LatticeNearest | test/simpleVersionGraph-test.js:54-55 | On the lattice, a common ancestor of 18 and 14 within three hops in all is 2, their greatest common divisor. |
| VersionGraphCases.LatticeMergeBase | test/simpleVersionGraph-test.js:52-57 | Whichever way round the heads come back, the ancestor `getMergeStrategy(18, 14)` reports is 2. |
| VersionGraphCases.MergeStrategyCase | test/simpleVersionGraph-test.js:52-57 | The reference version graph answers `getMergeStrategy(18, 14, false)` with x = 2. |
| Lattice.PrimeFactor | test/simpleVersionGraph-test.js:15-20 | Every number above 1 has a divisor above 1 that `isPrime` accepts. |
| Lattice.LatticeEdgeInto | test/simpleVersionGraph-test.js:21-37 | Every number from 2 to aMax - 1 is entered by the lattice edge from its quotient by any of its prime factors. |
| VersionGraphCases.LatticeIsScaling | test/simpleVersionGraph-test.js:21-37 | The log `createGraph` records is scaling: every version is a positive number and every transition multiplies its source by its weight. |
| VersionGraphCases.FollowsSnoc | test/graphDB-test.js:71-75 | A path followed by one more edge is a path. |
| VersionGraphCases.FollowsMono | test/simpleVersionGraph-test.js:153-159 | A path stays a path when edges are added. |
| VersionGraphCases.ReachFromOne | test/simpleVersionGraph-test.js:59-60 | On the lattice every version from 1 to 29 descends from 1, so any two of them have a common ancestor. |
| VersionGraphCases.RecordedGrows | test/simpleVersionGraph-test.js:153-159 | While the log only grows, every edge of the store stays. |
| VersionGraphCases.ReachesGrows | test/simpleVersionGraph-test.js:153-159 | While the log only grows, every version reachable from another stays reachable. |
| VersionGraphCases.CommonFromOne | test/simpleVersionGraph-test.js:59-62 | Two versions descending from 1 have a common ancestor. |
| VersionGraphCases.RecordedUnique | test/simpleVersionGraph-test.js:143 | The store's edges are determined by the log. |
| VersionGraphCases.AncestryBaseOk | test/simpleVersionGraph-test.js:142-143 | For the heads `getMergeStrategy` returns, `getPatches(x, V1)` succeeds, so `recordMerge` does not fail. |
| VersionGraphCases.MergedReaches | test/simpleVersionGraph-test.js:154-159 | After a merge, the merged version descends from 1 when V1 does, and every version that did still does. |
| VersionGraphCases.MergedPositive | test/simpleVersionGraph-test.js:154-155 | A merged version of a scaling log is a positive number. |
| VersionGraphCases.LatticeFresh | test/simpleVersionGraph-test.js:143 | No lattice edge touches a version that is not a number, such as "newVersion". |
| VersionGraphCases.HeavierFirstCase | test/simpleVersionGraph-test.js:69-78 | For any v1 and v2 from 1 to 29, the reference version graph after `createGraph(1, 1, 30)` answers `getMergeStrategy(v1, v2, false)` successfully, with V1 >= V2. |
| VersionGraphCases.RecordMergeCase | test/simpleVersionGraph-test.js:138-145 | For any v1 and v2 from 1 to 29, including v1 = v2, after the strategy and `recordMerge` into "newVersion" with no patches, `getPatches(v1, "newVersion")` succeeds. |
| VersionGraphCases.MergeProductFacts | test/simpleVersionGraph-test.js:153-158 | One merge of two versions that descend from 1 into `a * b / x` keeps the log scaling, and the merged version is a positive number that descends from 1. Every version that descended from 1 still does. |
| VersionGraphCases.MergeProduct | test/simpleVersionGraph-test.js:153-158 | The strategy for a and b, then `recordMerge` with no patches into `a * b / x`, keeps the log scaling and adds a positive merged version that descends from 1. |
| VersionGraphCases.MergeWeightsCase | test/simpleVersionGraph-test.js:147-161 | For any v1 to v4 from 1 to 29, after the two merges into v12 and v34, `getMergeStrategy(v12, v34, false)` succeeds with V6 <= V5. |
| VersionGraphCases.ConflictBaseNonEmpty | test/simpleVersionGraph-test.js:168-170 | For a common ancestor x of 10 and 24 on the lattice, `getPatches(x, 24)` succeeds with at least one patch, so the first patch can be accepted and the rest passed as conflicting. |
| VersionGraphCases.ConflictCase | test/simpleVersionGraph-test.js:163-183 | Merging 10 and 24 with `resolve = true`, accepting the first patch from x to 24 and passing the rest as conflicting: reading from 10 gives exactly the accepted patch, and reading from 24 gives the conflicting patches inverted, followed by the patches from x to 10. |

## Left out

- `setTimeout(reg.cb, 0)` (scheduler.js:23) is modelled by appending the registration id to `scheduled`. Callbacks are never run, and the event loop is not modelled.
- Registration objects shared between lists are modelled by ids into `count`. `reg.count--` updates `count[id]`, which has the same effect as the shared object.
- The graph store implementation (`dummyGraphDB.js`) is not part of this model, and neither is the version graph implementation (`simpleVersionGraph.js`). Both are modelled as reference implementations meeting the contracts their suites assert. Any other implementation passing the suites may differ in everything the suites leave open.
- Callback-passing control flow, `util.seq` and the mocha `describe`/`it`/`beforeEach` plumbing are left out. Each test case is a method or lemma whose contract is the suite's assertion.
- `DummyBucketStore` and `abolish` are storage resets and are left out. Every case starts from a new store, as after `clear`.
- `Math.sqrt` in `isPrime` is replaced by the bound `i * i <= x`. For whole numbers it admits the same divisors.
- Weights are floating-point numbers that add up along a path; the lattice passes `Math.log(a/b)` (test/simpleVersionGraph-test.js:25). The model stores the factor e^w instead, as an `int`, and multiplies factors along a path. For the lattice the factor is the integer a/b, and products of factors order paths as sums of logarithms do.
- VersionGraph.VersionGraph.RecordTrans: the weight is stored as given and read as a factor, not a logarithm. A weight passed directly, like the 1 at test/simpleVersionGraph-test.js:45, therefore stands for the factor 1 rather than e^1, and zero or negative integers have no logarithmic counterpart. Only the scaling lemmas use weights, and they assume factors of at least 1 (`Scaling`).
- `Math.random` sampling of versions is left out. The random cases are proved for every choice from 1 to 29: `HeavierFirstCase` (test/simpleVersionGraph-test.js:69-78), `RecordMergeCase` (138-145) and `MergeWeightsCase` (147-161). The case at 58-67 is `GetMergeStrategy`'s contract for all inputs. `MergeRoundTrip` covers equal heads (v1 = v2) as well.
- The assertion at test/simpleVersionGraph-test.js:127 is not modelled, because it does not hold on every run. After a merge with no patches, reading from v1 to "newVersion" gives no patches when v1 comes back as V1, and the patches from x to V1 when v1 comes back as V2 (`MergeRoundTrip`). So in this model the product equals v2/x exactly when v1 comes back as V2 or v2 divides v1, and it differs for v1 = 3 and v2 = 2.
- JavaScript compares nodes after turning them into strings (`'4'` at test/graphDB-test.js:74). Nodes and labels are kept as `Str` or `Num` values that never compare equal.
- GraphDB.GraphDB.FindPath and GraphDB.GraphDB.FindCommonAncestor: ties between equally short paths and equally near ancestors are broken by edge insertion order and by set iteration. The contracts do not fix which one is chosen.
- GraphDB.GraphDB.CreateGraph: when the store refuses an edge, the suite's builder calls `done(err)` and still goes on building. The model returns the error at once. On the cleared stores the suites use, no edge is refused.
- VersionGraph.VersionGraph.RecordTrans: every transition is stored under a fresh edge label, so recording the same transition twice stores it twice and never fails. The suite asserts only success (test/simpleVersionGraph-test.js:45).
- VersionGraph.VersionGraph.RecordMerge: it does not check that the accepted and conflicting patches partition the patches from x to V2. The suite passes `[]` and `[]` at test/simpleVersionGraph-test.js:119 and 143, so an `InvalidMerge` error would break those cases.
- VersionGraph.VersionGraph.RecordMerge: a merge edge stores its patches already expanded, so later reads need no recursive expansion of merge edges.
- VersionGraph.VersionGraph.GetPatches: the path is the hop-shortest one `findPath` returns, not a weight-shortest one.
- Version payloads (`{$: ...}` objects) are modelled by their `$` value alone.
- Scheduler.Scheduler.Register: condition names are keys of a `map`, so every string is an ordinary condition. In scheduler.js `this.sched` is a plain object, and a name that is a property of `Object.prototype` ("constructor", "toString", "__proto__", and so on) finds an inherited value at line 7. `register` then throws a TypeError at line 9 after the earlier conditions were updated, and `notify` (lines 16-27) walks the inherited value. The model registers and notifies such names like any other.
- GraphDB.GraphDB.AddCell: the contract does not state that the call succeeds when b -(a/b)-> a is not a lattice edge (the source then adds nothing and goes on). It does state that nothing is appended in that case.
