/** The topological sort that yields one dependency level at a time. */
module TopsortLevels {
  import opened Collections
  import opened Digraph
  import opened Dependencies
  import opened Topsort

  /** How the generator ends. */
  datatype End<T> = Finished | Cyclic(numParents: map<T, nat>, children: map<T, seq<T>>)

  /** The longest chain of predecessors of x has k of them. */
  ghost predicate LongestChain<T(!new)>(edges: set<(T, T)>, x: T, k: nat) {
    && (exists w :: IsWalk(edges, w) && w[|w| - 1] == x && |w| == k + 1)
    && (forall w :: IsWalk(edges, w) && w[|w| - 1] == x ==> |w| <= k + 1)
  }

  ghost function Placed<T>(levels: seq<seq<T>>): set<T> {
    Elems(Flatten(levels))
  }

  /** Parents sit in earlier levels, and an item past level 0 has one in the level just before. */
  ghost predicate Layered<T(!new)>(edges: set<(T, T)>, levels: seq<seq<T>>) {
    forall k, x :: 0 <= k < |levels| && x in levels[k] ==>
      && (forall p :: (p, x) in edges ==> p in Placed(levels[..k]))
      && (0 < k ==> HasParentIn(edges, Elems(levels[k - 1]), x))
  }

  /** Nothing that is left was free one level ago. */
  ghost predicate LastLevelBlocks<T>(pairs: seq<(T, T)>, levels: seq<seq<T>>, left: set<T>) {
    levels != [] ==> forall x :: x in left ==> Pending(pairs, x, Placed(levels[..|levels| - 1])) != 0
  }

  method TopsortLevels<T(==,!new)>(pairs: seq<(T, T)>) returns (levels: seq<seq<T>>, end: End<T>)
    ensures NoDup(Flatten(levels)) && (forall k :: 0 <= k < |levels| ==> levels[k] != [])
    ensures forall k, x :: 0 <= k < |levels| && x in levels[k] ==> LongestChain(EdgesOf(pairs), x, k)
    ensures forall x :: x in Placed(levels) <==> x in ItemsOf(pairs) && !OnOrAfterCycle(EdgesOf(pairs), x)
    ensures end.Finished? <==> Acyclic(EdgesOf(pairs))
    ensures end.Cyclic? ==>
      && (forall x :: x in end.numParents <==> OnOrAfterCycle(EdgesOf(pairs), x))
      && CountsUpToDate(pairs, ItemsOf(pairs), end.numParents, Placed(levels))
      && ChildrenUpToDate(pairs, end.children, Placed(levels))
  {
    var numParents, children := CountParents(pairs);
    levels, end := TopsortLevelsCore(pairs, ItemsOf(pairs), numParents, children);
  }

  /** The counts may also mention items that no pair mentions. */
  method TopsortLevelsCore<T(==,!new)>(
      ghost pairs: seq<(T, T)>, ghost items: set<T>, counts: map<T, nat>, lists: map<T, seq<T>>)
    returns (levels: seq<seq<T>>, end: End<T>)
    requires ItemsOf(pairs) <= items
    requires CountsUpToDate(pairs, items, counts, {}) && ChildrenUpToDate(pairs, lists, {})
    ensures NoDup(Flatten(levels)) && (forall k :: 0 <= k < |levels| ==> levels[k] != [])
    ensures forall k, x :: 0 <= k < |levels| && x in levels[k] ==> LongestChain(EdgesOf(pairs), x, k)
    ensures forall x :: x in Placed(levels) <==> x in items && !OnOrAfterCycle(EdgesOf(pairs), x)
    ensures end.Finished? <==> Acyclic(EdgesOf(pairs))
    ensures end.Cyclic? ==>
      && (forall x :: x in end.numParents <==> OnOrAfterCycle(EdgesOf(pairs), x))
      && CountsUpToDate(pairs, items, end.numParents, Placed(levels))
      && ChildrenUpToDate(pairs, end.children, Placed(levels))
  {
    var numParents, children := counts, lists;
    levels := [];
    assert Placed(levels) == {};
    ghost var edges := EdgesOf(pairs);
    while true
      invariant LevelsSoFar(pairs, items, levels, numParents, children)
      decreases items - Placed(levels)
    {
      var levelParents := ItemsWithoutParents(numParents);
      if levelParents == [] {
        break;
      }
      numParents, children := AddLevel(pairs, items, levels, levelParents, numParents, children);
      levels := levels + [levelParents];
    }
    NothingFree(pairs, items, levels, numParents);
    forall k, x | 0 <= k < |levels| && x in levels[k] ensures LongestChain(edges, x, k) {
      LevelIsLongestChain(edges, levels, k, x);
    }
    end := if numParents != map[] then Cyclic(numParents, children) else Finished;
  }

  ghost predicate LevelsSoFar<T(!new)>(
      pairs: seq<(T, T)>, items: set<T>, levels: seq<seq<T>>,
      numParents: map<T, nat>, children: map<T, seq<T>>) {
    && NoDup(Flatten(levels)) && (forall k :: 0 <= k < |levels| ==> levels[k] != [])
    && Placed(levels) <= items && Layered(EdgesOf(pairs), levels)
    && CountsUpToDate(pairs, items, numParents, Placed(levels))
    && ChildrenUpToDate(pairs, children, Placed(levels))
    && LastLevelBlocks(pairs, levels, numParents.Keys)
  }

  /** One round of the main loop, after the free items have been collected and yielded. */
  method AddLevel<T(==,!new)>(
      ghost pairs: seq<(T, T)>, ghost items: set<T>, ghost levels: seq<seq<T>>, level: seq<T>,
      counts: map<T, nat>, lists: map<T, seq<T>>)
    returns (numParents: map<T, nat>, children: map<T, seq<T>>)
    requires ItemsOf(pairs) <= items && LevelsSoFar(pairs, items, levels, counts, lists)
    requires level != [] && NoDup(level) && forall x :: x in level <==> x in counts && counts[x] == 0
    ensures LevelsSoFar(pairs, items, levels + [level], numParents, children)
    ensures items - Placed(levels + [level]) < items - Placed(levels)
  {
    ExtendLayers(pairs, items, levels, level, counts);
    LayersClosed(pairs, levels);
    assert level[0] in items - Placed(levels) && level[0] in Elems(level);
    numParents, children := ReleaseLevel(pairs, items, Placed(levels), level, counts, lists);
  }

  lemma LayersClosed<T(!new)>(pairs: seq<(T, T)>, levels: seq<seq<T>>)
    requires Layered(EdgesOf(pairs), levels) && NoDup(Flatten(levels))
    ensures forall p :: p in pairs && p.1 in Placed(levels) ==> p.0 in Placed(levels)
  {
    LayersAreGraded(EdgesOf(pairs), levels);
    forall p | p in pairs && p.1 in Placed(levels) ensures p.0 in Placed(levels) {
      assert (p.0, p.1) in EdgesOf(pairs);
    }
  }

  /** The parentless items of this round form a good next level. */
  lemma ExtendLayers<T(!new)>(
      pairs: seq<(T, T)>, items: set<T>, levels: seq<seq<T>>, level: seq<T>, numParents: map<T, nat>)
    requires ItemsOf(pairs) <= items && Placed(levels) <= items
    requires NoDup(Flatten(levels)) && Layered(EdgesOf(pairs), levels)
    requires CountsUpToDate(pairs, items, numParents, Placed(levels))
    requires LastLevelBlocks(pairs, levels, numParents.Keys)
    requires NoDup(level) && forall x :: x in level <==> x in numParents && numParents[x] == 0
    ensures NoDup(Flatten(levels + [level]))
    ensures Placed(levels + [level]) == Placed(levels) + Elems(level) <= items
    ensures Layered(EdgesOf(pairs), levels + [level])
    ensures LastLevelBlocks(pairs, levels + [level], items - Placed(levels + [level]))
  {
    var edges, longer := EdgesOf(pairs), levels + [level];
    assert longer[..|levels|] == levels;
    NoDupAppend(Flatten(levels), level);
    forall k, x | 0 <= k < |longer| && x in longer[k]
      ensures forall p :: (p, x) in edges ==> p in Placed(longer[..k])
      ensures 0 < k ==> HasParentIn(edges, Elems(longer[k - 1]), x)
    {
      if k < |levels| {
        assert longer[..k] == levels[..k] && x in levels[k];
      } else {
        FreeItemParents(pairs, levels, x);
      }
    }
  }

  /** An item that has just become free: its parents are placed, one of them in the last level. */
  lemma FreeItemParents<T(!new)>(pairs: seq<(T, T)>, levels: seq<seq<T>>, x: T)
    requires Pending(pairs, x, Placed(levels)) == 0
    requires levels != [] ==> Pending(pairs, x, Placed(levels[..|levels| - 1])) != 0
    ensures forall p :: (p, x) in EdgesOf(pairs) ==> p in Placed(levels)
    ensures levels != [] ==> HasParentIn(EdgesOf(pairs), Elems(levels[|levels| - 1]), x)
  {
    PendingZero(pairs, x, Placed(levels));
    if levels != [] {
      var front, last := levels[..|levels| - 1], levels[|levels| - 1];
      PendingZero(pairs, x, Placed(front));
      var p :| p in pairs && p.1 == x && p.0 !in Placed(front);
      assert levels == front + [last];
      assert p.0 in Elems(last) && (p.0, x) in EdgesOf(pairs);
    }
  }

  /** The two inner loops: every child of every item of the level loses that parent. */
  method ReleaseLevel<T(==,!new)>(
      ghost pairs: seq<(T, T)>, ghost items: set<T>, ghost done: set<T>, level: seq<T>,
      counts: map<T, nat>, lists: map<T, seq<T>>)
    returns (numParents: map<T, nat>, children: map<T, seq<T>>)
    requires ItemsOf(pairs) <= items
    requires CountsUpToDate(pairs, items, counts, done) && ChildrenUpToDate(pairs, lists, done)
    requires forall p :: p in pairs && p.1 in done ==> p.0 in done
    requires NoDup(level) && forall x :: x in level ==> x in counts && counts[x] == 0
    ensures CountsUpToDate(pairs, items, numParents, done + Elems(level))
    ensures ChildrenUpToDate(pairs, children, done + Elems(level))
  {
    numParents, children := counts, lists;
    assert done + Elems(level[..0]) == done;
    for j := 0 to |level|
      invariant CountsUpToDate(pairs, items, numParents, done + Elems(level[..j]))
      invariant ChildrenUpToDate(pairs, children, done + Elems(level[..j]))
    {
      ElemsUpTo(level, j);
      assert done + Elems(level[..j + 1]) == done + Elems(level[..j]) + {level[j]};
      ChildrenStillCounted(pairs, done, level, level[j]);
      numParents, children := ReleaseItem(pairs, items, done + Elems(level[..j]), level[j], numParents, children);
    }
    assert level[..|level|] == level;
  }

  lemma ChildrenStillCounted<T(!new)>(pairs: seq<(T, T)>, done: set<T>, level: seq<T>, parent: T)
    requires forall p :: p in pairs && p.1 in done ==> p.0 in done
    requires forall x :: x in level ==> x !in done && Pending(pairs, x, done) == 0
    requires parent in level
    ensures forall c :: c in ChildrenOf(pairs, parent) ==> c !in done + Elems(level) && c in ItemsOf(pairs)
  {
    forall c | c in ChildrenOf(pairs, parent) ensures c !in done + Elems(level) && c in ItemsOf(pairs) {
      ChildIsEdge(pairs, parent, c);
      var edge := (parent, c);
      assert edge in pairs && edge.1 == c;
      PendingZero(pairs, c, done);
    }
  }

  method ReleaseItem<T(==,!new)>(
      ghost pairs: seq<(T, T)>, ghost items: set<T>, ghost done: set<T>, parent: T,
      counts: map<T, nat>, lists: map<T, seq<T>>)
    returns (numParents: map<T, nat>, children: map<T, seq<T>>)
    requires CountsUpToDate(pairs, items, counts, done) && ChildrenUpToDate(pairs, lists, done)
    requires parent in items && parent !in done
    requires forall c :: c in ChildrenOf(pairs, parent) ==> c in items && c !in done + {parent}
    ensures CountsUpToDate(pairs, items, numParents, done + {parent})
    ensures ChildrenUpToDate(pairs, children, done + {parent})
  {
    FinishItem(pairs, items, done, parent, counts, lists);
    numParents, children := counts - {parent}, lists;
    if parent in children {
      numParents := KnockDown(pairs, items, done + {parent}, numParents, children[parent]);
      children := children - {parent};
    }
  }

  method KnockDown<T(==)>(
      ghost pairs: seq<(T, T)>, ghost items: set<T>, ghost done: set<T>, counts: map<T, nat>, kids: seq<T>)
    returns (numParents: map<T, nat>)
    requires CountsInFlight(pairs, items, counts, done, kids)
    requires forall c :: c in kids ==> c in items && c !in done
    ensures CountsUpToDate(pairs, items, numParents, done)
  {
    numParents := counts;
    for m := 0 to |kids|
      invariant CountsInFlight(pairs, items, numParents, done, kids[m..])
    {
      assert kids[m] in kids && kids[m..] == [kids[m]] + kids[m + 1..];
      numParents := numParents[kids[m] := numParents[kids[m]] - 1];
    }
    assert kids[|kids|..] == [];
  }

  /** Each placed item with the number of its level. */
  ghost function LevelRanks<T(!new)>(levels: seq<seq<T>>): (rank: map<T, nat>)
    ensures rank.Keys == Placed(levels)
  {
    if levels == [] then map[]
    else
      var front, last := levels[..|levels| - 1], levels[|levels| - 1];
      ElemsAppend(Flatten(front), last);
      LevelRanks(front) + map x | x in Elems(last) :: |front|
  }

  lemma {:induction false} LevelRank<T(!new)>(levels: seq<seq<T>>, k: nat, x: T)
    requires NoDup(Flatten(levels)) && k < |levels| && x in levels[k]
    ensures x in LevelRanks(levels) && LevelRanks(levels)[x] == k
  {
    var front, last := levels[..|levels| - 1], levels[|levels| - 1];
    NoDupAppend(Flatten(front), last);
    if k < |front| {
      assert x in front[k];
      LevelRank(front, k, x);
      assert x in Elems(Flatten(front));
    }
  }

  lemma LayersAreGraded<T(!new)>(edges: set<(T, T)>, levels: seq<seq<T>>)
    requires NoDup(Flatten(levels)) && Layered(edges, levels)
    ensures Graded(edges, LevelRanks(levels))
  {
    var rank := LevelRanks(levels);
    forall p, c | (p, c) in edges && c in rank ensures p in rank && rank[p] < rank[c] {
      assert c in Flatten(levels);
      InFlatten(levels, c);
      var k :| 0 <= k < |levels| && c in levels[k];
      assert p in Flatten(levels[..k]);
      InFlatten(levels[..k], p);
      var i :| 0 <= i < k && p in levels[..k][i];
      LevelRank(levels, k, c);
      LevelRank(levels, i, p);
    }
  }

  /** When no counted item is free, the counted items are those on or after a cycle. */
  lemma NothingFree<T(!new)>(pairs: seq<(T, T)>, items: set<T>, levels: seq<seq<T>>, numParents: map<T, nat>)
    requires ItemsOf(pairs) <= items && Placed(levels) <= items
    requires NoDup(Flatten(levels)) && Layered(EdgesOf(pairs), levels)
    requires CountsUpToDate(pairs, items, numParents, Placed(levels))
    requires forall x :: x in numParents ==> numParents[x] != 0
    ensures forall x :: x in numParents <==> OnOrAfterCycle(EdgesOf(pairs), x)
    ensures numParents == map[] <==> Acyclic(EdgesOf(pairs))
  {
    LayersAreGraded(EdgesOf(pairs), levels);
    assert numParents == map[] <==> numParents.Keys == {};
    forall x | x in numParents ensures x in ItemsOf(pairs) {
      PendingZero(pairs, x, Placed(levels));
    }
    assert numParents.Keys == ItemsOf(pairs) - Placed(levels);
    LeftoverExactly(pairs, LevelRanks(levels), numParents.Keys);
  }

  lemma {:induction false} ChainOfLength<T(!new)>(edges: set<(T, T)>, levels: seq<seq<T>>, k: nat, x: T)
    returns (w: seq<T>)
    requires Layered(edges, levels) && k < |levels| && x in levels[k]
    ensures IsWalk(edges, w) && w[|w| - 1] == x && |w| == k + 1
  {
    if k == 0 {
      w := [x];
    } else {
      assert HasParentIn(edges, Elems(levels[k - 1]), x);
      var p :| p in Elems(levels[k - 1]) && (p, x) in edges;
      var v := ChainOfLength(edges, levels, k - 1, p);
      w := v + [x];
    }
  }

  lemma LevelIsLongestChain<T(!new)>(edges: set<(T, T)>, levels: seq<seq<T>>, k: nat, x: T)
    requires NoDup(Flatten(levels)) && Layered(edges, levels)
    requires k < |levels| && x in levels[k]
    ensures LongestChain(edges, x, k)
  {
    var w := ChainOfLength(edges, levels, k, x);
    var rank := LevelRanks(levels);
    LayersAreGraded(edges, levels);
    LevelRank(levels, k, x);
    forall v | IsWalk(edges, v) && v[|v| - 1] == x ensures |v| <= k + 1 {
      GradedWalk(edges, rank, v);
    }
  }

  /** Levels by longest chain put every parent in a strictly earlier level than its child. */
  lemma ParentInEarlierLevel<T(!new)>(edges: set<(T, T)>, parent: T, child: T, i: nat, k: nat)
    requires (parent, child) in edges
    requires LongestChain(edges, parent, i) && LongestChain(edges, child, k)
    ensures i < k
  {
    var w :| IsWalk(edges, w) && w[|w| - 1] == parent && |w| == i + 1;
    assert IsWalk(edges, w + [child]);
  }
}
