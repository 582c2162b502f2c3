/**
 The predecessor counts and child lists that both topological sorts build from a list of
 (parent, child) pairs, and what it means for them to be up to date once some parents are done.
 */
module Dependencies {
  import opened Collections
  import opened Digraph

  ghost function EdgesOf<T>(pairs: seq<(T, T)>): set<(T, T)> {
    set p | p in pairs
  }

  ghost function ItemsOf<T>(pairs: seq<(T, T)>): set<T> {
    (set p | p in pairs :: p.0) + (set p | p in pairs :: p.1)
  }

  /** How many pairs, counted with repetitions, give x a parent outside done. */
  ghost function Pending<T>(pairs: seq<(T, T)>, x: T, done: set<T>): nat {
    if pairs == [] then 0
    else
      var p := pairs[|pairs| - 1];
      Pending(pairs[..|pairs| - 1], x, done) + if p.1 == x && p.0 !in done then 1 else 0
  }

  /** The children of x, in pair order, with repetitions. */
  ghost function ChildrenOf<T>(pairs: seq<(T, T)>, x: T): seq<T> {
    if pairs == [] then []
    else
      var p := pairs[|pairs| - 1];
      ChildrenOf(pairs[..|pairs| - 1], x) + if p.0 == x then [p.1] else []
  }

  lemma PendingZero<T>(pairs: seq<(T, T)>, x: T, done: set<T>)
    ensures Pending(pairs, x, done) == 0 <==> forall p :: p in pairs && p.1 == x ==> p.0 in done
  {
  }

  lemma {:induction false} PendingStep<T>(pairs: seq<(T, T)>, x: T, done: set<T>, parent: T)
    requires parent !in done
    ensures Pending(pairs, x, done)
         == Pending(pairs, x, done + {parent}) + multiset(ChildrenOf(pairs, parent))[x]
  {
    if pairs != [] {
      PendingStep(pairs[..|pairs| - 1], x, done, parent);
    }
  }

  lemma ChildIsEdge<T>(pairs: seq<(T, T)>, x: T, child: T)
    ensures child in ChildrenOf(pairs, x) <==> (x, child) in pairs
  {
  }

  /** children lists exactly the child lists of the items outside done; absent means no children. */
  ghost predicate ChildrenUpToDate<T(!new)>(pairs: seq<(T, T)>, children: map<T, seq<T>>, done: set<T>) {
    && (forall x :: x in children ==> x !in done && children[x] == ChildrenOf(pairs, x))
    && (forall x :: x !in children && x !in done ==> ChildrenOf(pairs, x) == [])
  }

  /** numParents has the items outside done, each with its count of parents outside done. */
  ghost predicate CountsUpToDate<T>(pairs: seq<(T, T)>, items: set<T>, numParents: map<T, nat>, done: set<T>) {
    && numParents.Keys == items - done
    && forall x :: x in numParents ==> numParents[x] == Pending(pairs, x, done)
  }

  /** The counts while the children in rest still have to be told that done is done. */
  ghost predicate CountsInFlight<T>(
      pairs: seq<(T, T)>, items: set<T>, numParents: map<T, nat>, done: set<T>, rest: seq<T>) {
    && numParents.Keys == items - done
    && forall x :: x in numParents ==> numParents[x] == Pending(pairs, x, done) + multiset(rest)[x]
  }

  /** Deleting a parentless item leaves the counts of its children as the only stale entries. */
  lemma FinishItem<T(!new)>(
      pairs: seq<(T, T)>, items: set<T>, done: set<T>, parent: T,
      numParents: map<T, nat>, children: map<T, seq<T>>)
    requires parent in items && parent !in done
    requires CountsUpToDate(pairs, items, numParents, done)
    requires ChildrenUpToDate(pairs, children, done)
    ensures CountsInFlight(pairs, items, numParents - {parent}, done + {parent}, ChildrenOf(pairs, parent))
    ensures ChildrenUpToDate(pairs, children - {parent}, done + {parent})
    ensures parent in numParents
    ensures parent !in children ==> ChildrenOf(pairs, parent) == []
  {
    forall x | x in numParents
      ensures Pending(pairs, x, done)
           == Pending(pairs, x, done + {parent}) + multiset(ChildrenOf(pairs, parent))[x]
    {
      PendingStep(pairs, x, done, parent);
    }
  }

  lemma CountsStep<T>(pairs: seq<(T, T)>, p: (T, T), before: map<T, nat>, after: map<T, nat>)
    requires CountsUpToDate(pairs, ItemsOf(pairs), before, {})
    requires after.Keys == before.Keys + {p.0, p.1}
    requires forall x :: x in after ==>
      after[x] == (if x in before then before[x] else 0) + if x == p.1 then 1 else 0
    ensures CountsUpToDate(pairs + [p], ItemsOf(pairs + [p]), after, {})
  {
    forall x | x !in ItemsOf(pairs) ensures Pending(pairs, x, {}) == 0 {
      PendingZero(pairs, x, {});
    }
  }

  lemma ChildrenStep<T(!new)>(pairs: seq<(T, T)>, p: (T, T), before: map<T, seq<T>>, after: map<T, seq<T>>)
    requires ChildrenUpToDate(pairs, before, {})
    requires after == before[p.0 := (if p.0 in before then before[p.0] else []) + [p.1]]
    ensures ChildrenUpToDate(pairs + [p], after, {})
  {
  }

  method CountParents<T(==,!new)>(pairs: seq<(T, T)>)
    returns (numParents: map<T, nat>, children: map<T, seq<T>>)
    ensures CountsUpToDate(pairs, ItemsOf(pairs), numParents, {})
    ensures ChildrenUpToDate(pairs, children, {})
  {
    numParents, children := map[], map[];
    for i := 0 to |pairs|
      invariant CountsUpToDate(pairs[..i], ItemsOf(pairs[..i]), numParents, {})
      invariant ChildrenUpToDate(pairs[..i], children, {})
    {
      numParents, children := CountPair(pairs[..i], pairs[i], numParents, children);
      assert pairs[..i + 1] == pairs[..i] + [pairs[i]];
    }
    assert pairs[..|pairs|] == pairs;
  }

  /** The body of the counting loop. */
  method CountPair<T(==,!new)>(
      ghost seen: seq<(T, T)>, pair: (T, T), counts: map<T, nat>, lists: map<T, seq<T>>)
    returns (numParents: map<T, nat>, children: map<T, seq<T>>)
    requires CountsUpToDate(seen, ItemsOf(seen), counts, {}) && ChildrenUpToDate(seen, lists, {})
    ensures CountsUpToDate(seen + [pair], ItemsOf(seen + [pair]), numParents, {})
    ensures ChildrenUpToDate(seen + [pair], children, {})
  {
    var (parent, child) := pair;
    numParents := counts;
    if parent !in numParents {
      numParents := numParents[parent := 0];
    }
    if child !in numParents {
      numParents := numParents[child := 0];
    }
    numParents := numParents[child := numParents[child] + 1];
    CountsStep(seen, pair, counts, numParents);
    children := lists[parent := (if parent in lists then lists[parent] else []) + [child]];
    ChildrenStep(seen, pair, lists, children);
  }

  ghost predicate HasParentIn<T>(edges: set<(T, T)>, items: set<T>, c: T) {
    exists p :: p in items && (p, c) in edges
  }

  /**
   What is left when no counted item is free of parents: each leftover item has a leftover parent,
   so the leftover items are exactly those on or after a cycle.
   */
  lemma LeftoverIsCyclic<T(!new)>(edges: set<(T, T)>, left: set<T>, x: T)
    requires x in left
    requires forall c :: c in left ==> HasParentIn(edges, left, c)
    ensures OnOrAfterCycle(edges, x)
  {
    var w := WalkBack(edges, left, x, |left| + 1);
    LongWalkHasCycle(edges, w, left);
    var i :| 0 <= i < |w| && OnCycle(edges, w[i]);
    SubWalk(edges, w, i, |w|);
    assert Reaches(edges, w[i], x);
  }

  lemma WalkBack<T(!new)>(edges: set<(T, T)>, left: set<T>, x: T, length: nat) returns (w: seq<T>)
    requires x in left && 0 < length
    requires forall c :: c in left ==> HasParentIn(edges, left, c)
    ensures IsWalk(edges, w) && |w| == length && w[|w| - 1] == x && Elems(w) <= left
  {
    if length == 1 {
      w := [x];
    } else {
      var v := WalkBack(edges, left, x, length - 1);
      assert v[0] in Elems(v);
      var p :| p in left && (p, v[0]) in edges;
      w := [p] + v;
    }
  }

  /** The ranked items are closed under parents and the rank grows along every edge into them. */
  ghost predicate Graded<T(!new)>(edges: set<(T, T)>, rank: map<T, nat>) {
    forall p, c :: (p, c) in edges && c in rank ==> p in rank && rank[p] < rank[c]
  }

  lemma {:induction false} GradedWalk<T(!new)>(edges: set<(T, T)>, rank: map<T, nat>, w: seq<T>)
    requires Graded(edges, rank) && IsWalk(edges, w) && w[|w| - 1] in rank
    ensures w[0] in rank && rank[w[0]] + |w| - 1 <= rank[w[|w| - 1]]
    decreases |w|
  {
    if 1 < |w| {
      GradedWalk(edges, rank, w[1..]);
      assert (w[0], w[1]) in edges;
    }
  }

  lemma GradedIsAcyclic<T(!new)>(edges: set<(T, T)>, rank: map<T, nat>, x: T)
    requires Graded(edges, rank) && x in rank
    ensures !OnOrAfterCycle(edges, x)
  {
    forall y | OnCycle(edges, y) && Reaches(edges, y, x) ensures false {
      var u :| IsWalkFromTo(edges, u, y, x);
      GradedWalk(edges, rank, u);
      var w :| IsWalkFromTo(edges, w, y, y) && 2 <= |w|;
      GradedWalk(edges, rank, w);
    }
  }

  /**
   The items a sort could not place, when it placed the ranked ones and every other one kept
   a pending parent, are exactly the items on or after a cycle.
   */
  lemma LeftoverExactly<T(!new)>(pairs: seq<(T, T)>, rank: map<T, nat>, left: set<T>)
    requires left == ItemsOf(pairs) - rank.Keys
    requires Graded(EdgesOf(pairs), rank)
    requires forall x :: x in left ==> Pending(pairs, x, rank.Keys) != 0
    ensures forall x :: x in left <==> OnOrAfterCycle(EdgesOf(pairs), x)
    ensures left == {} <==> Acyclic(EdgesOf(pairs))
  {
    var edges := EdgesOf(pairs);
    forall c | c in left ensures HasParentIn(edges, left, c) {
      PendingZero(pairs, c, rank.Keys);
      var p :| p in pairs && p.1 == c && p.0 !in rank.Keys;
      assert p.0 in left && (p.0, c) in edges;
    }
    forall x ensures x in left <==> OnOrAfterCycle(edges, x) {
      if x in left {
        LeftoverIsCyclic(edges, left, x);
      } else if x in rank {
        GradedIsAcyclic(edges, rank, x);
      } else if OnOrAfterCycle(edges, x) {
        CyclesAreItems(pairs, x);
      }
    }
    AcyclicMeansNone(edges);
  }

  /** A cycle stays inside the items of the pair list. */
  lemma CyclesAreItems<T(!new)>(pairs: seq<(T, T)>, x: T)
    requires OnOrAfterCycle(EdgesOf(pairs), x)
    ensures x in ItemsOf(pairs)
  {
    var y :| OnCycle(EdgesOf(pairs), y) && Reaches(EdgesOf(pairs), y, x);
    var w :| IsWalkFromTo(EdgesOf(pairs), w, y, y) && 2 <= |w|;
    var u :| IsWalkFromTo(EdgesOf(pairs), u, y, x);
    assert (w[0], w[1]) in pairs;
    if 1 < |u| {
      assert (u[|u| - 2], u[|u| - 1]) in pairs;
    }
  }

  lemma AcyclicMeansNone<T(!new)>(edges: set<(T, T)>)
    ensures Acyclic(edges) <==> forall x :: !OnOrAfterCycle(edges, x)
  {
    forall x | OnCycle(edges, x) ensures OnOrAfterCycle(edges, x) {
      assert IsWalkFromTo(edges, [x], x, x);
    }
  }

  // ----- whether what is left over has children

  ghost predicate LeadsToCycle<T(!new)>(edges: set<(T, T)>, x: T) {
    exists y :: OnCycle(edges, y) && Reaches(edges, x, y)
  }

  /** A walk of any length that starts at x and stays on or after a cycle. */
  lemma WalkOn<T(!new)>(pairs: seq<(T, T)>, x: T, length: nat) returns (w: seq<T>)
    requires 0 < length && OnOrAfterCycle(EdgesOf(pairs), x)
    requires forall y :: OnOrAfterCycle(EdgesOf(pairs), y) ==> ChildrenOf(pairs, y) != []
    ensures IsWalk(EdgesOf(pairs), w) && |w| == length && w[0] == x
    ensures forall y :: y in w ==> OnOrAfterCycle(EdgesOf(pairs), y)
  {
    hide OnOrAfterCycle, ChildrenOf;
    if length == 1 {
      w := [x];
    } else {
      var v := WalkOn(pairs, x, length - 1);
      var end := v[|v| - 1];
      assert end in v;
      var child := ChildrenOf(pairs, end)[0];
      ChildIsEdge(pairs, end, child);
      AfterStays(pairs, end, child);
      w := v + [child];
    }
  }

  lemma AfterStays<T(!new)>(pairs: seq<(T, T)>, x: T, child: T)
    requires OnOrAfterCycle(EdgesOf(pairs), x) && (x, child) in pairs
    ensures OnOrAfterCycle(EdgesOf(pairs), child)
  {
    var edges := EdgesOf(pairs);
    var y :| OnCycle(edges, y) && Reaches(edges, y, x);
    assert IsWalkFromTo(edges, [x, child], x, child);
    ReachesTrans(edges, y, x, child);
  }

  lemma ChildTowardsCycle<T(!new)>(pairs: seq<(T, T)>, x: T)
    requires LeadsToCycle(EdgesOf(pairs), x)
    ensures ChildrenOf(pairs, x) != []
  {
    var edges := EdgesOf(pairs);
    var y :| OnCycle(edges, y) && Reaches(edges, x, y);
    var u :| IsWalkFromTo(edges, u, x, y);
    var w :| IsWalkFromTo(edges, w, y, y) && 2 <= |w|;
    var child := if 1 < |u| then u[1] else w[1];
    assert if 1 < |u| then (u[0], u[1]) in edges else (w[0], w[1]) in edges;
    ChildIsEdge(pairs, x, child);
  }

  /** Every item left over has a child exactly if every one leads on to a cycle again. */
  lemma ChildrenExactly<T(!new)>(pairs: seq<(T, T)>)
    ensures (forall x :: OnOrAfterCycle(EdgesOf(pairs), x) ==> ChildrenOf(pairs, x) != [])
       <==> (forall x :: OnOrAfterCycle(EdgesOf(pairs), x) ==> LeadsToCycle(EdgesOf(pairs), x))
  {
    hide OnOrAfterCycle, ChildrenOf, LeadsToCycle;
    var edges := EdgesOf(pairs);
    forall x | LeadsToCycle(edges, x) ensures ChildrenOf(pairs, x) != [] {
      ChildTowardsCycle(pairs, x);
    }
    if forall x :: OnOrAfterCycle(edges, x) ==> ChildrenOf(pairs, x) != [] {
      forall x | OnOrAfterCycle(edges, x) ensures LeadsToCycle(edges, x) {
        GoesOnToCycle(pairs, x);
      }
    }
  }

  lemma GoesOnToCycle<T(!new)>(pairs: seq<(T, T)>, x: T)
    requires OnOrAfterCycle(EdgesOf(pairs), x)
    requires forall y :: OnOrAfterCycle(EdgesOf(pairs), y) ==> ChildrenOf(pairs, y) != []
    ensures LeadsToCycle(EdgesOf(pairs), x)
  {
    hide OnOrAfterCycle, ChildrenOf;
    var edges, items := EdgesOf(pairs), ItemsOf(pairs);
    var w := WalkOn(pairs, x, |items| + 1);
    forall y | y in w ensures y in items {
      CyclesAreItems(pairs, y);
    }
    LongWalkHasCycle(edges, w, items);
    var i :| 0 <= i < |w| && OnCycle(edges, w[i]);
    SubWalk(edges, w, 0, i + 1);
    assert Reaches(edges, x, w[i]);
  }

  /** What is left over need not have a child: in these pairs 2 only comes after the cycle. */
  lemma LeftoverWithoutChild()
    ensures var pairs := [(1, 1), (1, 2)];
            OnOrAfterCycle(EdgesOf(pairs), 2) && ChildrenOf(pairs, 2) == []
  {
    var pairs := [(1, 1), (1, 2)];
    assert pairs[0] in pairs && pairs[1] in pairs;
    assert IsWalkFromTo(EdgesOf(pairs), [1, 1], 1, 1) && IsWalkFromTo(EdgesOf(pairs), [1, 2], 1, 2);
    assert OnCycle(EdgesOf(pairs), 1) && Reaches(EdgesOf(pairs), 1, 2);
    assert pairs[..1] == [(1, 1)];
  }
}
