/** The one-shot multi-condition join of scheduler.js.

    A registration waits for a list of conditions; it is appended to the
    list of every condition it names (once per occurrence) and carries a
    counter that starts at the number of names.  Notifying a condition
    decrements every registration on that condition's list, once per entry,
    hands the callback of each registration whose counter reaches zero to
    the event loop, and deletes the list.  Registrations are identified by
    their index in `count`; handing a callback to the event loop is modelled
    by appending its registration id to `scheduled`. */
module Scheduler {
  import opened Common

  type Cond = string
  type RegId = nat

  /** Every entry of every list, counted with multiplicity. */
  ghost function Flatten(m: map<Cond, seq<RegId>>): multiset<RegId>
    decreases |m|
  {
    if m == map[] then multiset{}
    else
      var c :| c in m;
      assert |m - {c}| < |m| by { assert (m - {c}).Keys < m.Keys; }
      multiset(m[c]) + Flatten(m - {c})
  }

  /** The list of condition `c`, or the empty list when `c` has none. */
  function ListOf(m: map<Cond, seq<RegId>>, c: Cond): seq<RegId>
  {
    if c in m then m[c] else []
  }

  /** The conditions registration `r` still waits for. */
  ghost function Awaiting(m: map<Cond, seq<RegId>>, r: RegId): set<Cond>
  {
    set c | c in m && r in m[c]
  }

  lemma {:induction false} FlattenRemove(m: map<Cond, seq<RegId>>, c: Cond)
    requires c in m
    ensures Flatten(m) == multiset(m[c]) + Flatten(m - {c})
    decreases |m|
  {
    var k :| k in m && Flatten(m) == multiset(m[k]) + Flatten(m - {k});
    if k != c {
      assert (m - {k}).Keys < m.Keys;
      assert (m - {c}).Keys < m.Keys;
      FlattenRemove(m - {k}, c);
      FlattenRemove(m - {c}, k);
      RemoveSwap(m, k, c);
      var both := Flatten(m - {k} - {c});
      assert Flatten(m) == multiset(m[k]) + (multiset(m[c]) + both);
      assert Flatten(m - {c}) == multiset(m[k]) + both;
    }
  }

  lemma RemoveSwap(m: map<Cond, seq<RegId>>, k: Cond, c: Cond)
    ensures m - {k} - {c} == m - {c} - {k}
  {
  }

  /** Appending `r` to the list of `c` adds exactly one `r` to the entries. */
  lemma FlattenAppend(m: map<Cond, seq<RegId>>, c: Cond, r: RegId)
    ensures Flatten(m[c := ListOf(m, c) + [r]]) == Flatten(m) + multiset{r}
  {
    var m' := m[c := ListOf(m, c) + [r]];
    SeqMultisetSnoc(ListOf(m, c), r);
    if c in m {
      FlattenReplace(m, c, ListOf(m, c) + [r]);
    } else {
      FlattenRemove(m', c);
      assert m' - {c} == m;
    }
  }

  /** Replacing the list of `c` replaces its entries. */
  lemma FlattenReplace(m: map<Cond, seq<RegId>>, c: Cond, l: seq<RegId>)
    requires c in m
    ensures Flatten(m[c := l]) == Flatten(m - {c}) + multiset(l)
    ensures Flatten(m) == Flatten(m - {c}) + multiset(m[c])
  {
    FlattenRemove(m[c := l], c);
    FlattenRemove(m, c);
    assert m[c := l] - {c} == m - {c};
  }

  lemma SeqMultisetSnoc(s: seq<RegId>, r: RegId)
    ensures multiset(s + [r]) == multiset(s) + multiset{r}
  {
  }

  /** A registration occurs somewhere in the lists exactly when it awaits a condition. */
  lemma {:induction false} FlattenOccurs(m: map<Cond, seq<RegId>>, r: RegId)
    ensures Flatten(m)[r] == 0 <==> Awaiting(m, r) == {}
    decreases |m|
  {
    if m != map[] {
      var c :| c in m;
      FlattenRemove(m, c);
      assert (m - {c}).Keys < m.Keys;
      FlattenOccurs(m - {c}, r);
      if r in m[c] {
        assert c in Awaiting(m, r);
      } else {
        assert Awaiting(m, r) == Awaiting(m - {c}, r);
      }
    } else {
      assert Awaiting(m, r) == {};
    }
  }

  /** The registrations one notify hands to the event loop, given the counters
      `count` before it and the list `cbs` it walks: the entry at position k
      is scheduled when the counter of its registration equals the number of
      occurrences of that registration from position k on, and entries
      further back in the list come first. */
  function Due(count: seq<int>, cbs: seq<RegId>): seq<RegId>
    requires forall i :: 0 <= i < |cbs| ==> cbs[i] < |count|
  {
    if cbs == [] then []
    else Due(count, cbs[1..]) + (if count[cbs[0]] == multiset(cbs)[cbs[0]] then [cbs[0]] else [])
  }

  /** One more step of the backward walk: the entry at `i` comes after
      everything due behind it. */
  lemma DueStep(count: seq<int>, cbs: seq<RegId>, i: nat)
    requires forall k :: 0 <= k < |cbs| ==> cbs[k] < |count|
    requires i < |cbs|
    ensures multiset(cbs[i..]) == multiset(cbs[i + 1..]) + multiset{cbs[i]}
    ensures Due(count, cbs[i..]) == Due(count, cbs[i + 1..]) +
              (if count[cbs[i]] == multiset(cbs[i..])[cbs[i]] then [cbs[i]] else [])
  {
    assert cbs[i..] == [cbs[i]] + cbs[i + 1..];
    assert cbs[i..][1..] == cbs[i + 1..];
  }

  /** One step of the walk of `notify` takes one more entry off the counters. */
  lemma WalkCount(count0: seq<int>, cbs: seq<RegId>, i: nat, count: seq<int>)
    requires i < |cbs| && cbs[i] < |count| == |count0|
    requires forall r :: 0 <= r < |count| ==> count[r] == count0[r] - multiset(cbs[i + 1..])[r]
    ensures var count' := count[cbs[i] := count[cbs[i]] - 1];
            forall r :: 0 <= r < |count'| ==> count'[r] == count0[r] - multiset(cbs[i..])[r]
  {
    assert cbs[i..] == [cbs[i]] + cbs[i + 1..];
  }

  /** One step of the walk of `notify` queues the entry exactly when it is due. */
  lemma WalkQueue(count0: seq<int>, cbs: seq<RegId>, i: nat, scheduled0: seq<RegId>, scheduled: seq<RegId>)
    requires forall k :: 0 <= k < |cbs| ==> cbs[k] < |count0|
    requires i < |cbs|
    requires scheduled == scheduled0 + Due(count0, cbs[i + 1..])
    ensures scheduled0 + Due(count0, cbs[i..]) ==
            scheduled + (if count0[cbs[i]] == multiset(cbs[i..])[cbs[i]] then [cbs[i]] else [])
  {
    DueStep(count0, cbs, i);
    var tail := if count0[cbs[i]] == multiset(cbs[i..])[cbs[i]] then [cbs[i]] else [];
    ConcatAssoc(scheduled0, Due(count0, cbs[i + 1..]), tail);
  }

  /** A registration is due exactly when its counter is positive and at
      most its number of entries in the walked list. */
  lemma {:induction false} DueMembership(count: seq<int>, cbs: seq<RegId>, r: RegId)
    requires forall i :: 0 <= i < |cbs| ==> cbs[i] < |count|
    ensures r in Due(count, cbs) <==> r < |count| && 1 <= count[r] <= multiset(cbs)[r]
  {
    if cbs != [] {
      DueMembership(count, cbs[1..], r);
      assert cbs == [cbs[0]] + cbs[1..];
      assert multiset(cbs) == multiset{cbs[0]} + multiset(cbs[1..]);
    }
  }

  /** No registration is scheduled twice by one notify. */
  lemma {:induction false} DueDistinct(count: seq<int>, cbs: seq<RegId>)
    requires forall i :: 0 <= i < |cbs| ==> cbs[i] < |count|
    ensures forall i, j :: 0 <= i < j < |Due(count, cbs)| ==> Due(count, cbs)[i] != Due(count, cbs)[j]
  {
    if cbs != [] {
      DueDistinct(count, cbs[1..]);
      var r := cbs[0];
      if count[r] == multiset(cbs)[r] {
        DueMembership(count, cbs[1..], r);
        assert cbs == [r] + cbs[1..];
        assert multiset(cbs)[r] == multiset(cbs[1..])[r] + 1;
      }
    }
  }

  /** The entry at position `k` of the walked list is the one that brings
      its registration's counter to zero. */
  ghost predicate FiresAt(count: seq<int>, cbs: seq<RegId>, k: nat)
  {
    k < |cbs| && cbs[k] < |count| && count[cbs[k]] == multiset(cbs[k..])[cbs[k]]
  }

  /** The registration of an entry that brings its counter to zero is scheduled. */
  lemma {:induction false} DueHasFiring(count: seq<int>, cbs: seq<RegId>, k: nat)
    requires forall i :: 0 <= i < |cbs| ==> cbs[i] < |count|
    requires FiresAt(count, cbs, k)
    ensures cbs[k] in Due(count, cbs)
    decreases |cbs|
  {
    if k == 0 {
      assert cbs[0..] == cbs;
    } else {
      assert cbs[1..][k - 1..] == cbs[k..];
      DueHasFiring(count, cbs[1..], k - 1);
    }
  }

  /** Callbacks falling due in one walk are scheduled in reverse order of
      the list positions where their counters reach zero. */
  lemma {:induction false} DueReversed(count: seq<int>, cbs: seq<RegId>, i: nat, j: nat)
    requires forall k :: 0 <= k < |cbs| ==> cbs[k] < |count|
    requires i < j && FiresAt(count, cbs, i) && FiresAt(count, cbs, j)
    ensures exists p, q :: 0 <= p < q < |Due(count, cbs)| && Due(count, cbs)[p] == cbs[j] && Due(count, cbs)[q] == cbs[i]
    decreases |cbs|
  {
    var rest := Due(count, cbs[1..]);
    var d := Due(count, cbs);
    DueFront(count, cbs);
    assert cbs[1..][j - 1..] == cbs[j..];
    if i == 0 {
      DueHasFiring(count, cbs[1..], j - 1);
      var p :| 0 <= p < |rest| && rest[p] == cbs[j];
      assert d[p] == cbs[j] && d[|rest|] == cbs[i];
    } else {
      assert cbs[1..][i - 1..] == cbs[i..];
      DueReversed(count, cbs[1..], i - 1, j - 1);
      var p, q :| 0 <= p < q < |rest| && rest[p] == cbs[j] && rest[q] == cbs[i];
      assert d[p] == cbs[j] && d[q] == cbs[i];
    }
  }

  /** What the walk schedules behind the first entry comes first. */
  lemma DueFront(count: seq<int>, cbs: seq<RegId>)
    requires forall k :: 0 <= k < |cbs| ==> cbs[k] < |count|
    requires cbs != []
    ensures |Due(count, cbs[1..])| <= |Due(count, cbs)|
    ensures forall p :: 0 <= p < |Due(count, cbs[1..])| ==> Due(count, cbs)[p] == Due(count, cbs[1..])[p]
    ensures FiresAt(count, cbs, 0) ==> Due(count, cbs) == Due(count, cbs[1..]) + [cbs[0]]
  {
    assert cbs[0..] == cbs;
  }

  /** A registration whose counter is zero, such as one made on no
      conditions at all, is never scheduled. */
  lemma NeverDue(count: seq<int>, cbs: seq<RegId>, r: RegId)
    requires forall i :: 0 <= i < |cbs| ==> cbs[i] < |count|
    requires r < |count| && count[r] == 0
    ensures r !in Due(count, cbs)
  {
    DueMembership(count, cbs, r);
  }

  /** The consistency of the index: list entries name existing registrations
      and each counter equals the number of entries still naming it. */
  ghost predicate Consistent(sched: map<Cond, seq<RegId>>, count: seq<int>)
  {
    && (forall c, i :: c in sched && 0 <= i < |sched[c]| ==> sched[c][i] < |count|)
    && (forall r :: 0 <= r < |count| ==> count[r] == Flatten(sched)[r])
  }

  /** Under the invariant, notifying `c` schedules exactly the registrations
      whose only outstanding condition is `c`: a callback runs once every
      condition it named has been notified, and not before. */
  lemma NotifyFiresLast(sched: map<Cond, seq<RegId>>, count: seq<int>, c: Cond, r: RegId)
    requires Consistent(sched, count)
    requires c in sched
    requires r < |count|
    ensures r in Due(count, sched[c]) <==> Awaiting(sched, r) == {c}
  {
    DueMembership(count, sched[c], r);
    FlattenRemove(sched, c);
    FlattenOccurs(sched - {c}, r);
    var rest := sched - {c};
    if Awaiting(sched, r) == {c} {
      assert Awaiting(rest, r) == {};
      assert r in sched[c];
    }
    if r in Due(count, sched[c]) {
      assert Flatten(rest)[r] == 0;
      assert Awaiting(rest, r) == {};
      assert r in sched[c];
    }
  }

  /** A sequence of `n` copies of `x`. */
  function Repeat(x: RegId, n: nat): (r: seq<RegId>)
    ensures |r| == n
  {
    if n == 0 then [] else Repeat(x, n - 1) + [x]
  }

  lemma {:induction false} RepeatMultiset(x: RegId, n: nat)
    ensures multiset(Repeat(x, n)) == multiset{}[x := n]
  {
    if n > 0 {
      RepeatMultiset(x, n - 1);
    }
  }

  /** The index after `register` appended `id` for each of `conds` in turn. */
  function AppendAll(m: map<Cond, seq<RegId>>, conds: seq<Cond>, id: RegId): map<Cond, seq<RegId>>
  {
    if conds == [] then m
    else
      var m' := AppendAll(m, conds[..|conds| - 1], id);
      var c := conds[|conds| - 1];
      m'[c := ListOf(m', c) + [id]]
  }

  /** Registering for `conds` creates the lists of the listed conditions. */
  lemma {:induction false} AppendAllKeys(m: map<Cond, seq<RegId>>, conds: seq<Cond>, id: RegId, c: Cond)
    ensures c in AppendAll(m, conds, id) <==> c in m || c in conds
  {
    if conds != [] {
      var init := conds[..|conds| - 1];
      assert conds == init + [conds[|conds| - 1]];
      AppendAllKeys(m, init, id, c);
    }
  }

  /** Appending `id` to the list of `d` leaves every other list alone. */
  lemma ListOfAppend(m: map<Cond, seq<RegId>>, d: Cond, id: RegId, c: Cond)
    ensures ListOf(m[d := ListOf(m, d) + [id]], c) == ListOf(m, c) + (if c == d then [id] else [])
  {
  }

  /** The last entry of `conds` counts once more for its own condition. */
  lemma MultisetLast(conds: seq<Cond>, c: Cond)
    requires conds != []
    ensures multiset(conds)[c] == multiset(conds[..|conds| - 1])[c] + (if c == conds[|conds| - 1] then 1 else 0)
  {
    assert conds == conds[..|conds| - 1] + [conds[|conds| - 1]];
  }

  lemma RepeatSnoc(before: seq<RegId>, id: RegId, n: nat, more: bool)
    ensures (before + Repeat(id, n)) + (if more then [id] else []) ==
            before + Repeat(id, n + (if more then 1 else 0))
  {
    if more {
      assert Repeat(id, n + 1) == Repeat(id, n) + [id];
    }
  }

  /** What registering `id` for `conds` does to the list of one condition:
      it gains `id` once per occurrence of the condition in `conds`. */
  lemma {:induction false} AppendAllAt(m: map<Cond, seq<RegId>>, conds: seq<Cond>, id: RegId, c: Cond)
    ensures c in AppendAll(m, conds, id) <==> c in m || c in conds
    ensures ListOf(AppendAll(m, conds, id), c) == ListOf(m, c) + Repeat(id, multiset(conds)[c])
  {
    AppendAllKeys(m, conds, id, c);
    if conds != [] {
      var init, d := conds[..|conds| - 1], conds[|conds| - 1];
      AppendAllAt(m, init, id, c);
      var m' := AppendAll(m, init, id);
      ListOfAppend(m', d, id, c);
      MultisetLast(conds, c);
      RepeatSnoc(ListOf(m, c), id, multiset(init)[c], c == d);
    }
  }

  /** Registering adds `id` to the entries once per listed condition. */
  lemma {:induction false} AppendAllFlatten(m: map<Cond, seq<RegId>>, conds: seq<Cond>, id: RegId)
    ensures Flatten(AppendAll(m, conds, id)) == Flatten(m) + multiset{}[id := |conds|]
  {
    if conds != [] {
      var init := conds[..|conds| - 1];
      AppendAllFlatten(m, init, id);
      FlattenAppend(AppendAll(m, init, id), conds[|conds| - 1], id);
    }
  }

  lemma {:induction false} RepeatElements(x: RegId, n: nat, i: nat)
    requires i < n
    ensures Repeat(x, n)[i] == x
  {
    if i < n - 1 {
      RepeatElements(x, n - 1, i);
    }
  }

  /** After `register`, the lists name only registrations up to the new one. */
  lemma RegisterBounds(sched: map<Cond, seq<RegId>>, count: seq<int>, conds: seq<Cond>)
    requires Consistent(sched, count)
    ensures forall c, i :: c in AppendAll(sched, conds, |count|) && 0 <= i < |AppendAll(sched, conds, |count|)[c]| ==>
              AppendAll(sched, conds, |count|)[c][i] <= |count|
  {
    var m := AppendAll(sched, conds, |count|);
    forall c, i | c in m && 0 <= i < |m[c]| ensures m[c][i] <= |count| {
      AppendAllAt(sched, conds, |count|, c);
      var k := |ListOf(sched, c)|;
      if i >= k {
        RepeatElements(|count|, multiset(conds)[c], i - k);
      } else {
        assert m[c][i] == sched[c][i];
      }
    }
  }

  /** `register` keeps the index consistent. */
  lemma RegisterPreserves(sched: map<Cond, seq<RegId>>, count: seq<int>, conds: seq<Cond>)
    requires Consistent(sched, count)
    ensures Consistent(AppendAll(sched, conds, |count|), count + [|conds|])
  {
    var id := |count|;
    var m := AppendAll(sched, conds, id);
    var count' := count + [|conds|];
    RegisterBounds(sched, count, conds);
    AppendAllFlatten(sched, conds, id);
    FlattenOccurs(sched, id);
    assert Flatten(sched)[id] == 0;
    forall r | 0 <= r < |count'| ensures count'[r] == Flatten(m)[r] {
      assert Flatten(m)[r] == Flatten(sched)[r] + (if r == id then |conds| else 0);
    }
  }

  /** Whether a registration is on the list of one condition after `register`. */
  lemma RegisterMember(sched: map<Cond, seq<RegId>>, count: seq<int>, conds: seq<Cond>, r: RegId, c: Cond)
    requires Consistent(sched, count)
    ensures var m := AppendAll(sched, conds, |count|);
            (c in m && r in m[c]) <==> (if r == |count| then c in conds else c in sched && r in sched[c])
  {
    var id := |count|;
    var m := AppendAll(sched, conds, id);
    AppendAllAt(sched, conds, id, c);
    var n := multiset(conds)[c];
    RepeatMultiset(id, n);
    assert multiset(ListOf(m, c)) == multiset(ListOf(sched, c)) + multiset{}[id := n];
    assert r in ListOf(m, c) <==> r in multiset(ListOf(m, c));
    assert r in ListOf(sched, c) <==> r in multiset(ListOf(sched, c));
    if r == id {
      assert id !in ListOf(sched, c);
      assert c in conds <==> c in multiset(conds);
    }
  }

  /** The new registration awaits exactly the listed conditions, and every
      other one awaits what it did before. */
  lemma RegisterAwaiting(sched: map<Cond, seq<RegId>>, count: seq<int>, conds: seq<Cond>, r: RegId)
    requires Consistent(sched, count)
    ensures r == |count| ==> Awaiting(AppendAll(sched, conds, |count|), r) == set c | c in conds
    ensures r != |count| ==> Awaiting(AppendAll(sched, conds, |count|), r) == Awaiting(sched, r)
  {
    forall c {
      RegisterMember(sched, count, conds, r, c);
    }
  }

  /** `notify(c)` keeps the index consistent: removing the list of `c` takes
      away exactly the decrements the walk performed. */
  lemma NotifyPreserves(sched: map<Cond, seq<RegId>>, count: seq<int>, c: Cond, count': seq<int>)
    requires Consistent(sched, count)
    requires |count'| == |count|
    requires forall r :: 0 <= r < |count| ==> count'[r] == count[r] - multiset(ListOf(sched, c))[r]
    ensures Consistent(sched - {c}, count')
  {
    if c in sched {
      FlattenRemove(sched, c);
      var rest := sched - {c};
      forall d, i | d in rest && 0 <= i < |rest[d]| ensures rest[d][i] < |count'| {
        assert rest[d] == sched[d];
      }
    } else {
      assert sched - {c} == sched;
    }
  }

  /** Each registration one notify schedules had a positive counter, which
      the walk brings to zero, and `c` was the last condition it awaited. */
  lemma NotifyDue(sched: map<Cond, seq<RegId>>, count: seq<int>, c: Cond, count': seq<int>, r: RegId)
    requires Consistent(sched, count)
    requires |count'| == |count|
    requires forall r :: 0 <= r < |count| ==> count'[r] == count[r] - multiset(ListOf(sched, c))[r]
    requires r in Due(count, ListOf(sched, c))
    ensures r < |count| && count'[r] == 0 && count[r] > 0
    ensures Awaiting(sched, r) == {c}
  {
    DueMembership(count, ListOf(sched, c), r);
    assert c in sched;
    NotifyFiresLast(sched, count, c, r);
    FlattenRemove(sched, c);
  }

  /** Every scheduled registration exists, has a zero counter, and was
      scheduled only once. */
  ghost predicate ScheduledOnce(scheduled: seq<RegId>, count: seq<int>)
  {
    && (forall i :: 0 <= i < |scheduled| ==> scheduled[i] < |count| && count[scheduled[i]] == 0)
    && (forall i, j :: 0 <= i < j < |scheduled| ==> scheduled[i] != scheduled[j])
  }

  lemma ScheduledAppend(a: seq<RegId>, b: seq<RegId>, count: seq<int>)
    requires ScheduledOnce(a, count) && ScheduledOnce(b, count)
    requires forall x :: x in b ==> x !in a
    ensures ScheduledOnce(a + b, count)
  {
    var s := a + b;
    forall i, j | 0 <= i < j < |s| ensures s[i] != s[j] {
      if i < |a| <= j {
        assert s[j] in b;
      }
    }
  }

  /** What one notify schedules is scheduled once, with its counter at zero. */
  lemma DueOnce(sched: map<Cond, seq<RegId>>, count: seq<int>, c: Cond, count': seq<int>)
    requires Consistent(sched, count)
    requires |count'| == |count|
    requires forall r :: 0 <= r < |count| ==> count'[r] == count[r] - multiset(ListOf(sched, c))[r]
    ensures ScheduledOnce(Due(count, ListOf(sched, c)), count')
  {
    var due := Due(count, ListOf(sched, c));
    DueDistinct(count, ListOf(sched, c));
    forall i | 0 <= i < |due| ensures due[i] < |count'| && count'[due[i]] == 0 {
      NotifyDue(sched, count, c, count', due[i]);
    }
  }

  /** A callback scheduled earlier waits for nothing, so notify leaves its
      counter at zero. */
  lemma ScheduledStays(sched: map<Cond, seq<RegId>>, count: seq<int>, scheduled: seq<RegId>,
                       c: Cond, count': seq<int>)
    requires Consistent(sched, count) && ScheduledOnce(scheduled, count)
    requires |count'| == |count|
    requires forall r :: 0 <= r < |count| ==> count'[r] == count[r] - multiset(ListOf(sched, c))[r]
    ensures ScheduledOnce(scheduled, count')
  {
    forall i | 0 <= i < |scheduled| ensures count'[scheduled[i]] == 0 {
      var r := scheduled[i];
      FlattenOccurs(sched, r);
      assert c in sched && r in sched[c] ==> c in Awaiting(sched, r);
    }
  }

  /** What one notify schedules keeps every callback scheduled at most once. */
  lemma NotifySchedulesOnce(sched: map<Cond, seq<RegId>>, count: seq<int>, scheduled: seq<RegId>,
                            c: Cond, count': seq<int>)
    requires Consistent(sched, count) && ScheduledOnce(scheduled, count)
    requires |count'| == |count|
    requires forall r :: 0 <= r < |count| ==> count'[r] == count[r] - multiset(ListOf(sched, c))[r]
    ensures ScheduledOnce(scheduled + Due(count, ListOf(sched, c)), count')
  {
    var due := Due(count, ListOf(sched, c));
    DueOnce(sched, count, c, count');
    ScheduledStays(sched, count, scheduled, c, count');
    forall r | r in due ensures r !in scheduled {
      NotifyDue(sched, count, c, count', r);
    }
    ScheduledAppend(scheduled, due, count');
  }

  /** Everything `notify` keeps: the index, the one-shot scheduling, and
      that what it schedules waited for `c` last. */
  lemma NotifyKeeps(sched: map<Cond, seq<RegId>>, count: seq<int>, scheduled: seq<RegId>,
                    c: Cond, count': seq<int>)
    requires Consistent(sched, count) && ScheduledOnce(scheduled, count)
    requires |count'| == |count|
    requires forall r :: 0 <= r < |count| ==> count'[r] == count[r] - multiset(ListOf(sched, c))[r]
    ensures Consistent(sched - {c}, count')
    ensures ScheduledOnce(scheduled + Due(count, ListOf(sched, c)), count')
    ensures forall r :: r in Due(count, ListOf(sched, c)) ==> Awaiting(sched, r) == {c}
  {
    NotifyPreserves(sched, count, c, count');
    NotifySchedulesOnce(sched, count, scheduled, c, count');
    forall r | r in Due(count, ListOf(sched, c)) ensures Awaiting(sched, r) == {c} {
      NotifyDue(sched, count, c, count', r);
    }
  }

  /** The loop of `notify` over the list `cbs`: from index `|cbs|` (which
      holds no registration and is skipped) down to 0, decrement the counter
      of each entry and queue the registration when it reaches zero. */
  method Walk(cbs: seq<RegId>, count0: seq<int>, scheduled0: seq<RegId>) returns (count: seq<int>, scheduled: seq<RegId>)
    requires forall k :: 0 <= k < |cbs| ==> cbs[k] < |count0|
    ensures |count| == |count0|
    ensures forall r :: 0 <= r < |count| ==> count[r] == count0[r] - multiset(cbs)[r]
    ensures scheduled == scheduled0 + Due(count0, cbs)
  {
    count, scheduled := count0, scheduled0;
    var i := |cbs|;
    ghost var walked: seq<RegId> := [];
    while i >= 0
      invariant -1 <= i <= |cbs|
      invariant walked == cbs[Min(i + 1, |cbs|)..]
      invariant |count| == |count0|
      invariant forall r :: 0 <= r < |count| ==> count[r] == count0[r] - multiset(walked)[r]
      invariant scheduled == scheduled0 + Due(count0, walked)
    {
      if i < |cbs| {
        var r := cbs[i];
        WalkCount(count0, cbs, i, count);
        WalkQueue(count0, cbs, i, scheduled0, scheduled);
        walked := cbs[i..];
        count := count[r := count[r] - 1];
        if count[r] == 0 {
          scheduled := scheduled + [r];
        }
      }
      i := i - 1;
    }
    assert walked == cbs;
  }

  class Scheduler {
    /** `this.sched`: condition name to the registrations waiting on it. */
    var sched: map<Cond, seq<RegId>>
    /** `reg.count` of every registration made so far, by id. */
    var count: seq<int>
    /** Registration ids whose callbacks were handed to `setTimeout`, in order. */
    var scheduled: seq<RegId>

    ghost predicate Valid()
      reads this
    {
      && Consistent(sched, count)
      && ScheduledOnce(scheduled, count)
    }

    constructor ()
      ensures Valid()
      ensures sched == map[] && count == [] && scheduled == []
    {
      sched := map[];
      count := [];
      scheduled := [];
    }

    /** `register(conds, callback)`: a new registration whose counter is the
        number of listed conditions, appended to the list of every listed
        condition once per occurrence; other lists are unchanged. */
    method Register(conds: seq<Cond>) returns (id: RegId)
      requires Valid()
      modifies this
      ensures Valid()
      ensures id == |old(count)| && count == old(count) + [|conds|]
      ensures sched == AppendAll(old(sched), conds, id)
      ensures forall c :: c in sched <==> c in old(sched) || c in conds
      ensures forall c :: ListOf(sched, c) == ListOf(old(sched), c) + Repeat(id, multiset(conds)[c])
      ensures Awaiting(sched, id) == set c | c in conds
      ensures forall r :: r != id ==> Awaiting(sched, r) == Awaiting(old(sched), r)
      ensures scheduled == old(scheduled)
    {
      id := |count|;
      RegisterPreserves(sched, count, conds);
      forall c ensures (c in AppendAll(sched, conds, id) <==> c in sched || c in conds)
        && ListOf(AppendAll(sched, conds, id), c) == ListOf(sched, c) + Repeat(id, multiset(conds)[c])
      {
        AppendAllAt(sched, conds, id, c);
      }
      forall r ensures Awaiting(AppendAll(sched, conds, id), r) == if r == id then set c | c in conds else Awaiting(sched, r) {
        RegisterAwaiting(sched, count, conds, r);
      }
      count := count + [|conds|];
      var i := 0;
      while i < |conds|
        invariant 0 <= i <= |conds|
        invariant sched == AppendAll(old(sched), conds[..i], id)
        invariant count == old(count) + [|conds|] && scheduled == old(scheduled)
      {
        assert conds[..i + 1][..i] == conds[..i];
        var cbs := ListOf(sched, conds[i]);
        sched := sched[conds[i] := cbs + [id]];
        i := i + 1;
      }
      assert conds[..i] == conds;
    }

    /** `notify(cond)`: walks the list of `c` from its end to its start,
        decrementing the counter of each entry and scheduling the callbacks
        whose counters reach zero; then deletes the list of `c`. */
    method Notify(c: Cond)
      requires Valid()
      modifies this
      ensures Valid()
      ensures sched == old(sched) - {c}
      ensures |count| == |old(count)|
      ensures forall r :: 0 <= r < |count| ==>
                count[r] == old(count)[r] - multiset(ListOf(old(sched), c))[r]
      ensures scheduled == old(scheduled) + Due(old(count), ListOf(old(sched), c))
      ensures forall r :: r in Due(old(count), ListOf(old(sched), c)) ==> Awaiting(old(sched), r) == {c}
      ensures c !in old(sched) ==> sched == old(sched) && count == old(count) && scheduled == old(scheduled)
    {
      var cbs := ListOf(sched, c);
      ghost var sched0, count0, scheduled0 := sched, count, scheduled;
      if c in sched {
        count, scheduled := Walk(cbs, count, scheduled);
      }
      sched := sched - {c};
      NotifyKeeps(sched0, count0, scheduled0, c, count);
    }
  }

  function Min(a: int, b: int): int
  {
    if a < b then a else b
  }

  /** What the walk over a one-entry list schedules. */
  lemma DueSingle(count: seq<int>, r: RegId)
    requires r < |count|
    ensures Due(count, [r]) == if count[r] == 1 then [r] else []
  {
    assert [r][1..] == [];
  }

  lemma JoinCounts()
    ensures multiset(["A", "B"])["A"] == 1 && multiset(["A", "B"])["B"] == 1
    ensures Repeat(0, 1) == [0] && Repeat(1, 0) == []
  {
    assert multiset(["A", "B"]) == multiset{"A", "B"};
  }

  /** A join on two conditions: notifying one of them schedules nothing,
      notifying the other schedules the callback once, and notifying the
      first again has no further effect.  A registration on no condition is
      never scheduled. */
  method JoinExample() returns (afterA: seq<RegId>, afterB: seq<RegId>, afterAgain: seq<RegId>)
    ensures afterA == [] && afterB == [0] && afterAgain == [0]
  {
    var s := JoinRegistered();
    NotifySingle(s, "A", "B");
    afterA := s.scheduled;
    NotifySingle(s, "B", "A");
    afterB := s.scheduled;
    s.Notify("A");
    afterAgain := s.scheduled;
  }

  /** Notifying a condition whose list holds registration 0 alone: it is
      scheduled when that was its last outstanding condition. */
  method NotifySingle(s: Scheduler, c: Cond, other: Cond)
    requires s.Valid() && c != other && ListOf(s.sched, c) == [0] && |s.count| == 2
    modifies s
    ensures s.Valid() && |s.count| == 2 && s.count[0] == old(s.count[0]) - 1
    ensures s.scheduled == old(s.scheduled) + (if old(s.count[0]) == 1 then [0] else [])
    ensures ListOf(s.sched, c) == [] && ListOf(s.sched, other) == old(ListOf(s.sched, other))
  {
    DueSingle(s.count, 0);
    s.Notify(c);
    assert multiset([0 as RegId])[0] == 1;
  }

  /** The registrations of the join example: one on "A" and "B", one on nothing. */
  method JoinRegistered() returns (s: Scheduler)
    ensures fresh(s) && s.Valid() && s.scheduled == []
    ensures ListOf(s.sched, "A") == [0] && ListOf(s.sched, "B") == [0]
    ensures |s.count| == 2 && s.count[0] == 2
  {
    s := new Scheduler();
    JoinCounts();
    var join := s.Register(["A", "B"]);
    assert ListOf(s.sched, "A") == [0] && ListOf(s.sched, "B") == [0] && s.count == [2];
    var never := s.Register([]);
  }
}
