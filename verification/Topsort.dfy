/** The work-list topological sort. */
module Topsort {
  import opened Collections
  import opened Digraph
  import opened Dependencies

  datatype Outcome<T> =
    | Sorted(answer: seq<T>)
    | CycleError(answer: seq<T>, numParents: map<T, nat>, children: map<T, seq<T>>)

  /** Every parent of a listed item is listed before it. */
  ghost predicate ParentsFirst<T(!new)>(edges: set<(T, T)>, answer: seq<T>) {
    forall k, p :: 0 <= k < |answer| && (p, answer[k]) in edges ==> p in answer[..k]
  }

  /** The listed but unfinished items are those without a pending parent. */
  ghost predicate ListedAreFree<T>(answer: seq<T>, numParents: map<T, nat>) {
    forall x :: x in numParents ==> (x in answer <==> numParents[x] == 0)
  }

  ghost predicate Listing<T(!new)>(pairs: seq<(T, T)>, answer: seq<T>) {
    NoDup(answer) && Elems(answer) <= ItemsOf(pairs) && ParentsFirst(EdgesOf(pairs), answer)
  }

  method Topsort<T(==,!new)>(pairs: seq<(T, T)>) returns (r: Outcome<T>)
    ensures r.Sorted? <==> Acyclic(EdgesOf(pairs))
    ensures NoDup(r.answer) && ParentsFirst(EdgesOf(pairs), r.answer)
    ensures r.Sorted? ==> Elems(r.answer) == ItemsOf(pairs)
    ensures r.CycleError? ==>
      && (forall x :: x in r.numParents <==> OnOrAfterCycle(EdgesOf(pairs), x))
      && CountsUpToDate(pairs, ItemsOf(pairs), r.numParents, Elems(r.answer))
      && ChildrenUpToDate(pairs, r.children, Elems(r.answer))
  {
    var numParents, children := CountParents(pairs);
    var answer := ItemsWithoutParents(numParents);
    InitialListing(pairs, numParents, answer);
    var i := 0;
    assert Elems(answer[..0]) == {};
    while i < |answer|
      invariant i <= |answer|
      invariant Listing(pairs, answer) && ListedAreFree(answer, numParents)
      invariant CountsUpToDate(pairs, ItemsOf(pairs), numParents, Elems(answer[..i]))
      invariant ChildrenUpToDate(pairs, children, Elems(answer[..i]))
      decreases |ItemsOf(pairs)| - i
    {
      ghost var before := answer;
      NoDupBound(answer, ItemsOf(pairs));
      numParents, children, answer := Process(pairs, numParents, children, answer, i);
      assert answer[..i + 1] == before[..i + 1];
      i := i + 1;
    }
    assert answer[..i] == answer;
    WhatIsLeft(pairs, answer, numParents);
    if numParents != map[] {
      r := CycleError(answer, numParents, children);
    } else {
      r := Sorted(answer);
    }
  }

  /** The body of the main loop, for the item at i. */
  method Process<T(==,!new)>(
      ghost pairs: seq<(T, T)>, counts: map<T, nat>, lists: map<T, seq<T>>, listed: seq<T>, i: nat)
    returns (numParents: map<T, nat>, children: map<T, seq<T>>, answer: seq<T>)
    requires i < |listed| && Listing(pairs, listed) && ListedAreFree(listed, counts)
    requires CountsUpToDate(pairs, ItemsOf(pairs), counts, Elems(listed[..i]))
    requires ChildrenUpToDate(pairs, lists, Elems(listed[..i]))
    ensures Listing(pairs, answer) && listed <= answer && ListedAreFree(answer, numParents)
    ensures CountsUpToDate(pairs, ItemsOf(pairs), numParents, Elems(listed[..i + 1]))
    ensures ChildrenUpToDate(pairs, children, Elems(listed[..i + 1]))
  {
    var parent := listed[i];
    ElemsUpTo(listed, i);
    FinishItem(pairs, ItemsOf(pairs), Elems(listed[..i]), parent, counts, lists);
    numParents, children, answer := counts - {parent}, lists, listed;
    if parent in children {
      numParents, answer := Release(pairs, numParents, answer, i, children[parent]);
      children := children - {parent};
    }
  }

  lemma WhatIsLeft<T(!new)>(pairs: seq<(T, T)>, answer: seq<T>, numParents: map<T, nat>)
    requires Listing(pairs, answer) && ListedAreFree(answer, numParents)
    requires CountsUpToDate(pairs, ItemsOf(pairs), numParents, Elems(answer))
    ensures forall x :: x in numParents <==> OnOrAfterCycle(EdgesOf(pairs), x)
    ensures numParents == map[] <==> Acyclic(EdgesOf(pairs))
    ensures numParents == map[] ==> Elems(answer) == ItemsOf(pairs)
  {
    assert numParents == map[] <==> numParents.Keys == {};
    LeftoverExactly(pairs, Ranks(answer), numParents.Keys);
  }

  method ItemsWithoutParents<T(==)>(numParents: map<T, nat>) returns (free: seq<T>)
    ensures NoDup(free)
    ensures forall x :: x in free <==> x in numParents && numParents[x] == 0
  {
    var keys := KeysInSomeOrder(numParents);
    free := [];
    for k := 0 to |keys|
      invariant NoDup(free)
      invariant forall x :: x in free <==> x in keys[..k] && numParents[x] == 0
    {
      assert keys[k] in Elems(keys);
      if numParents[keys[k]] == 0 {
        free := free + [keys[k]];
      }
    }
    assert forall x :: x in keys <==> x in Elems(keys);
  }

  lemma InitialListing<T(!new)>(pairs: seq<(T, T)>, numParents: map<T, nat>, answer: seq<T>)
    requires CountsUpToDate(pairs, ItemsOf(pairs), numParents, {})
    requires NoDup(answer) && forall x :: x in answer <==> x in numParents && numParents[x] == 0
    ensures Listing(pairs, answer)
  {
    forall x, p | x in answer ensures (p, x) !in EdgesOf(pairs) {
      PendingZero(pairs, x, {});
    }
  }

  /** The inner loop: knock down the count of each child of the item at i, listing it at zero. */
  method Release<T(==,!new)>(
      ghost pairs: seq<(T, T)>, counts: map<T, nat>, listed: seq<T>, ghost i: nat, kids: seq<T>)
    returns (numParents: map<T, nat>, answer: seq<T>)
    requires i < |listed| && Listing(pairs, listed) && ListedAreFree(listed, counts)
    requires kids == ChildrenOf(pairs, listed[i])
    requires CountsInFlight(pairs, ItemsOf(pairs), counts, Elems(listed[..i + 1]), kids)
    ensures Listing(pairs, answer) && listed <= answer && ListedAreFree(answer, numParents)
    ensures CountsUpToDate(pairs, ItemsOf(pairs), numParents, Elems(listed[..i + 1]))
  {
    numParents, answer := counts, listed;
    ghost var done := Elems(listed[..i + 1]);
    for j := 0 to |kids|
      invariant Listing(pairs, answer) && listed <= answer && ListedAreFree(answer, numParents)
      invariant CountsInFlight(pairs, ItemsOf(pairs), numParents, done, kids[j..])
    {
      assert kids[j..] == [kids[j]] + kids[j + 1..];
      ChildIsEdge(pairs, listed[i], kids[j]);
      assert answer[..i + 1] == listed[..i + 1];
      numParents, answer := KnockDown(pairs, numParents, answer, i, kids[j], kids[j + 1..]);
    }
    assert kids[|kids|..] == [];
  }

  /** The body of the inner loop, for one child of the item at i; rest is what comes after it. */
  method KnockDown<T(==,!new)>(
      ghost pairs: seq<(T, T)>, counts: map<T, nat>, listed: seq<T>, ghost i: nat, child: T, ghost rest: seq<T>)
    returns (numParents: map<T, nat>, answer: seq<T>)
    requires i < |listed| && Listing(pairs, listed) && ListedAreFree(listed, counts)
    requires (listed[i], child) in pairs
    requires CountsInFlight(pairs, ItemsOf(pairs), counts, Elems(listed[..i + 1]), [child] + rest)
    ensures Listing(pairs, answer) && listed <= answer && ListedAreFree(answer, numParents)
    ensures CountsInFlight(pairs, ItemsOf(pairs), numParents, Elems(listed[..i + 1]), rest)
  {
    numParents, answer := counts[child := counts[child] - 1], listed;
    if numParents[child] == 0 {
      AppendFree(pairs, listed, i, child);
      answer := answer + [child];
    }
  }

  lemma AppendFree<T(!new)>(pairs: seq<(T, T)>, answer: seq<T>, i: nat, child: T)
    requires i < |answer| && Listing(pairs, answer)
    requires child in ItemsOf(pairs) && child !in answer
    requires Pending(pairs, child, Elems(answer[..i + 1])) == 0
    ensures Listing(pairs, answer + [child])
  {
    var longer := answer + [child];
    PendingZero(pairs, child, Elems(answer[..i + 1]));
    forall k, p | 0 <= k < |longer| && (p, longer[k]) in EdgesOf(pairs) ensures p in longer[..k] {
      if k < |answer| {
        assert longer[..k] == answer[..k];
      } else {
        assert longer[..k] == answer;
        assert (p, child) in pairs;
        assert p in answer[..i + 1];
      }
    }
  }

  ghost function Position<T(!new)>(answer: seq<T>, x: T): (k: nat)
    requires x in answer
    ensures k < |answer| && answer[k] == x
  {
    var k :| 0 <= k < |answer| && answer[k] == x; k
  }

  ghost function Ranks<T(!new)>(answer: seq<T>): (rank: map<T, nat>)
    requires NoDup(answer)
    ensures rank.Keys == Elems(answer)
    ensures forall k :: 0 <= k < |answer| ==> rank[answer[k]] == k
  {
    map x | x in Elems(answer) :: Position(answer, x)
  }
}
