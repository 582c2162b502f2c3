/** The stack-based enumeration of all simple cycles, one representative of each up to rotation. */
module FindCycles {
  import opened Collections
  import opened Digraph
  import opened Rotation

  ghost function EdgesOf<T>(parentChildren: map<T, seq<T>>): set<(T, T)> {
    set p, c | p in parentChildren && c in parentChildren[p] :: (p, c)
  }

  function IndexOf<T(==)>(s: seq<T>, x: T): (k: nat)
    requires x in s
    ensures k < |s| && s[k] == x && forall i :: 0 <= i < k ==> s[i] != x
  {
    if s[0] == x then 0 else 1 + IndexOf(s[1..], x)
  }

  /** A repeat-free walk from start: what the stack holds and what the search ranges over. */
  ghost predicate IsPath<T>(edges: set<(T, T)>, start: T, p: seq<T>) {
    IsWalk(edges, p) && NoDup(p) && p[0] == start
  }

  ghost predicate Found<T>(cycles: seq<seq<T>>, c: seq<T>) {
    exists i :: 0 <= i < |cycles| && IsRotation(cycles[i], c)
  }

  /** Only simple cycles are listed, and no two of them are the same cycle. */
  ghost predicate CyclesOk<T>(edges: set<(T, T)>, cycles: seq<seq<T>>) {
    && (forall i :: 0 <= i < |cycles| ==> IsSimpleCycle(edges, cycles[i]))
    && (forall i, j :: 0 <= i < j < |cycles| ==> !IsRotation(cycles[i], cycles[j]))
  }

  /** The cycles that close at the last item of p are listed. */
  ghost predicate Closed<T(!new)>(edges: set<(T, T)>, p: seq<T>, cycles: seq<seq<T>>)
    requires p != []
  {
    forall x :: (p[|p| - 1], x) in edges && x in p ==> Found(cycles, p[IndexOf(p, x)..])
  }

  /** Every path from start is dealt with, or is still ahead because a prefix of it is on the stack. */
  ghost predicate Explored<T(!new)>(
      edges: set<(T, T)>, start: T, paths: seq<seq<T>>, cycles: seq<seq<T>>) {
    forall w :: IsPath(edges, start, w) ==>
      Closed(edges, w, cycles) || exists k :: 0 <= k < |paths| && paths[k] <= w
  }

  /** Every simple cycle reachable from v is listed. */
  ghost predicate Covered<T(!new)>(edges: set<(T, T)>, cycles: seq<seq<T>>, v: T) {
    forall c :: IsSimpleCycle(edges, c) && Reaches(edges, v, c[0]) ==> Found(cycles, c)
  }

  // ----- the tail of a path, from a repeated item on, is a cycle

  lemma TailIsCycle<T>(edges: set<(T, T)>, path: seq<T>, child: T)
    requires IsWalk(edges, path) && NoDup(path)
    requires child in path && (path[|path| - 1], child) in edges
    ensures IsSimpleCycle(edges, path[IndexOf(path, child)..])
  {
  }

  // ----- covering: a fully explored start covers every cycle it reaches

  /** The path that leads from start straight to the cycle c and once around it. */
  lemma PathAroundCycle<T(!new)>(edges: set<(T, T)>, start: T, c: seq<T>) returns (lead: seq<T>, j: nat)
    requires IsSimpleCycle(edges, c) && Reaches(edges, start, c[0])
    ensures j < |c| && IsPath(edges, start, lead + Rotate(c, j))
    ensures c[j] !in lead
  {
    var u :| IsWalkFromTo(edges, u, start, c[0]);
    var p := SimpleWalk(edges, u);
    var k := FirstIn(p, c);
    lead := p[..k];
    j := IndexOf(c, p[k]);
    RotatedCycle(edges, c, j);
    LeadIntoCycle(edges, p, k, Rotate(c, j));
    assert p[k] !in lead;
  }

  lemma FirstIn<T>(p: seq<T>, c: seq<T>) returns (k: nat)
    requires p != [] && c != [] && p[|p| - 1] in c
    ensures k < |p| && p[k] in c && forall i :: 0 <= i < k ==> p[i] !in c
  {
    k := 0;
    while p[k] !in c
      invariant k < |p| && forall i :: 0 <= i < k ==> p[i] !in c
      decreases |p| - k
    {
      k := k + 1;
    }
  }

  lemma RotatedCycle<T>(edges: set<(T, T)>, c: seq<T>, j: nat)
    requires IsSimpleCycle(edges, c) && j < |c|
    ensures IsSimpleCycle(edges, Rotate(c, j)) && Rotate(c, j)[0] == c[j]
    ensures Elems(Rotate(c, j)) == Elems(c)
  {
  }

  lemma LeadIntoCycle<T>(edges: set<(T, T)>, p: seq<T>, k: nat, r: seq<T>)
    requires IsWalk(edges, p) && NoDup(p) && k < |p|
    requires IsWalk(edges, r) && NoDup(r) && r[0] == p[k]
    requires forall i :: 0 <= i < k ==> p[i] !in r
    ensures IsPath(edges, p[0], p[..k] + r)
  {
  }

  lemma ExploredCovers<T(!new)>(edges: set<(T, T)>, start: T, cycles: seq<seq<T>>)
    requires forall w :: IsPath(edges, start, w) ==> Closed(edges, w, cycles)
    ensures Covered(edges, cycles, start)
  {
    forall c | IsSimpleCycle(edges, c) && Reaches(edges, start, c[0]) ensures Found(cycles, c) {
      var lead, j := PathAroundCycle(edges, start, c);
      RotatedCycle(edges, c, j);
      ClosedAfterLead(edges, lead, Rotate(c, j), cycles);
      var i :| 0 <= i < |cycles| && IsRotation(cycles[i], Rotate(c, j));
      RotationSymmetric(c, Rotate(c, j));
      RotationTransitive(cycles[i], Rotate(c, j), c);
    }
  }

  lemma ClosedAfterLead<T(!new)>(edges: set<(T, T)>, lead: seq<T>, r: seq<T>, cycles: seq<seq<T>>)
    requires IsSimpleCycle(edges, r) && NoDup(lead + r) && Closed(edges, lead + r, cycles)
    ensures Found(cycles, r)
  {
    var w := lead + r;
    assert w[|lead|] == r[0] && w[|w| - 1] == r[|r| - 1];
    assert IndexOf(w, r[0]) == |lead|;
    assert w[|lead|..] == r;
  }

  lemma CoveredFrom<T(!new)>(edges: set<(T, T)>, cycles: seq<seq<T>>, start: T, v: T)
    requires Covered(edges, cycles, start) && Reaches(edges, start, v)
    ensures Covered(edges, cycles, v)
  {
    forall c | IsSimpleCycle(edges, c) && Reaches(edges, v, c[0]) ensures Found(cycles, c) {
      ReachesTrans(edges, start, v, c[0]);
    }
  }

  lemma CoveredMore<T(!new)>(edges: set<(T, T)>, cycles: seq<seq<T>>, more: seq<seq<T>>, v: T)
    requires Covered(edges, cycles, v) && cycles <= more
    ensures Covered(edges, more, v)
  {
  }

  // ----- termination: a popped path outweighs all the longer paths pushed for it

  /** All keys and children. */
  ghost function Vertices<T>(parentChildren: map<T, seq<T>>): set<T> {
    parentChildren.Keys + set p, c | p in parentChildren && c in parentChildren[p] :: c
  }

  ghost function TotalDegree<T>(parentChildren: map<T, seq<T>>): nat
    decreases |parentChildren|
  {
    if parentChildren == map[] then 0
    else
      var p :| p in parentChildren;
      |parentChildren[p]| + TotalDegree(parentChildren - {p})
  }

  lemma DegreeBound<T>(parentChildren: map<T, seq<T>>, q: T)
    requires q in parentChildren
    ensures |parentChildren[q]| <= TotalDegree(parentChildren)
    decreases |parentChildren|
  {
  }

  /** 1 more than what degree many paths one longer weigh; nothing beyond the longest possible. */
  ghost function Weight(degree: nat, longest: nat, length: nat): nat
    decreases longest + 1 - length
  {
    if longest < length then 0 else 1 + degree * Weight(degree, longest, length + 1)
  }

  ghost function StackWeight<T>(degree: nat, longest: nat, paths: seq<seq<T>>): nat {
    if paths == [] then 0
    else StackWeight(degree, longest, paths[..|paths| - 1]) + Weight(degree, longest, |paths[|paths| - 1]|)
  }

  lemma PushedWeighLess(degree: nat, count: nat, unit: nat)
    requires count <= degree
    ensures count * unit < 1 + degree * unit
  {
  }

  lemma PathFits<T>(parentChildren: map<T, seq<T>>, p: seq<T>)
    requires IsWalk(EdgesOf(parentChildren), p) && NoDup(p) && p[0] in parentChildren
    ensures |p| <= |Vertices(parentChildren)|
  {
    forall x | x in p ensures x in Vertices(parentChildren) {
      var i :| 0 <= i < |p| && p[i] == x;
      if 0 < i {
        assert (p[i - 1], p[i]) in EdgesOf(parentChildren);
      }
    }
    NoDupBound(p, Vertices(parentChildren));
  }

  lemma CycleStartsAtKey<T(!new)>(parentChildren: map<T, seq<T>>, c: seq<T>)
    requires IsSimpleCycle(EdgesOf(parentChildren), c)
    ensures c[0] in parentChildren && Reaches(EdgesOf(parentChildren), c[0], c[0])
  {
    assert IsWalkFromTo(EdgesOf(parentChildren), [c[0]], c[0], c[0]);
    assert (c[0], if |c| == 1 then c[0] else c[1]) in EdgesOf(parentChildren);
  }

  // ----- the search

  method FindCycles<T(==,!new)>(parentChildren: map<T, seq<T>>) returns (cycles: seq<seq<T>>)
    ensures forall i :: 0 <= i < |cycles| ==> IsSimpleCycle(EdgesOf(parentChildren), cycles[i])
    ensures forall i, j :: 0 <= i < j < |cycles| ==>
      !IsRotation(cycles[i], cycles[j]) && !IsRotation(cycles[j], cycles[i])
    ensures forall c :: IsSimpleCycle(EdgesOf(parentChildren), c) ==> Found(cycles, c)
  {
    cycles := [];
    var visited: set<T> := {};
    ghost var edges := EdgesOf(parentChildren);
    var parents := KeysInSomeOrder(parentChildren);
    for k := 0 to |parents|
      invariant CyclesOk(edges, cycles)
      invariant forall v :: v in Elems(parents[..k]) + visited ==> Covered(edges, cycles, v)
    {
      var parent := parents[k];
      assert parents[..k + 1] == parents[..k] + [parent];
      assert parent in Elems(parents);
      if parent !in visited {
        cycles, visited := SearchFrom(parentChildren, parent, cycles, visited, Elems(parents[..k]));
      }
    }
    assert parents[..|parents|] == parents;
    forall c | IsSimpleCycle(edges, c) ensures Found(cycles, c) {
      CycleStartsAtKey(parentChildren, c);
      assert c[0] in Elems(parents);
      assert Covered(edges, cycles, c[0]);
    }
    forall i, j | 0 <= i < j < |cycles| ensures !IsRotation(cycles[j], cycles[i]) {
      if IsRotation(cycles[j], cycles[i]) {
        RotationSymmetric(cycles[j], cycles[i]);
      }
    }
  }

  /** The while loop over the stack, for one start. */
  method SearchFrom<T(==,!new)>(
      parentChildren: map<T, seq<T>>, start: T, cycles0: seq<seq<T>>, visited0: set<T>, ghost covered: set<T>)
    returns (cycles: seq<seq<T>>, visited: set<T>)
    requires start in parentChildren && CyclesOk(EdgesOf(parentChildren), cycles0)
    requires forall v :: v in covered + visited0 ==> Covered(EdgesOf(parentChildren), cycles0, v)
    ensures CyclesOk(EdgesOf(parentChildren), cycles) && cycles0 <= cycles && visited0 <= visited
    ensures forall v :: v in covered + visited + {start} ==> Covered(EdgesOf(parentChildren), cycles, v)
  {
    ghost var edges := EdgesOf(parentChildren);
    ghost var degree, longest := TotalDegree(parentChildren), |Vertices(parentChildren)|;
    cycles, visited := cycles0, visited0;
    var paths := [[start]];
    assert paths[0] == [start];
    while paths != []
      invariant CyclesOk(edges, cycles) && cycles0 <= cycles && visited0 <= visited
      invariant forall k :: 0 <= k < |paths| ==> IsPath(edges, start, paths[k])
      invariant forall v :: v in visited - visited0 ==> Reaches(edges, start, v)
      invariant Explored(edges, start, paths, cycles)
      decreases StackWeight(degree, longest, paths)
    {
      var path := paths[|paths| - 1];
      ghost var all := paths;
      paths := paths[..|paths| - 1];
      assert all == paths + [path];
      PathFits(parentChildren, path);
      var parent := path[|path| - 1];
      if parent in parentChildren {
        cycles, visited, paths := Expand(parentChildren, start, path, cycles, visited, paths);
      } else {
        DeadEnd(parentChildren, start, all, cycles);
      }
    }
    ExploredCovers(edges, start, cycles);
    forall v | v in covered + visited ensures Covered(edges, cycles, v) {
      if v in covered + visited0 {
        CoveredMore(edges, cycles0, cycles, v);
      } else {
        CoveredFrom(edges, cycles, start, v);
      }
    }
  }

  /** What the loop over children leaves behind for one child of the path's last item. */
  ghost predicate Handled<T>(path: seq<T>, child: T, cycles: seq<seq<T>>, paths: seq<seq<T>>) {
    if child in path then Found(cycles, path[IndexOf(path, child)..]) else path + [child] in paths
  }

  ghost predicate AllHandled<T>(path: seq<T>, children: seq<T>, cycles: seq<seq<T>>, paths: seq<seq<T>>) {
    forall i :: 0 <= i < |children| ==> Handled(path, children[i], cycles, paths)
  }

  /** The for loop over the children of the last item of a popped path. */
  method Expand<T(==,!new)>(
      parentChildren: map<T, seq<T>>, ghost start: T, path: seq<T>,
      cycles0: seq<seq<T>>, visited0: set<T>, paths0: seq<seq<T>>)
    returns (cycles: seq<seq<T>>, visited: set<T>, paths: seq<seq<T>>)
    requires IsPath(EdgesOf(parentChildren), start, path) && path[|path| - 1] in parentChildren
    requires |path| <= |Vertices(parentChildren)|
    requires CyclesOk(EdgesOf(parentChildren), cycles0)
    requires forall k :: 0 <= k < |paths0| ==> IsPath(EdgesOf(parentChildren), start, paths0[k])
    requires Explored(EdgesOf(parentChildren), start, paths0 + [path], cycles0)
    ensures CyclesOk(EdgesOf(parentChildren), cycles) && cycles0 <= cycles && visited0 <= visited
    ensures forall k :: 0 <= k < |paths| ==> IsPath(EdgesOf(parentChildren), start, paths[k])
    ensures forall v :: v in visited - visited0 ==> Reaches(EdgesOf(parentChildren), start, v)
    ensures Explored(EdgesOf(parentChildren), start, paths, cycles)
    ensures StackWeight(TotalDegree(parentChildren), |Vertices(parentChildren)|, paths)
          < StackWeight(TotalDegree(parentChildren), |Vertices(parentChildren)|, paths0 + [path])
  {
    ghost var degree, longest := TotalDegree(parentChildren), |Vertices(parentChildren)|;
    var children := parentChildren[path[|path| - 1]];
    cycles, visited, paths :=
      TryChildren(EdgesOf(parentChildren), degree, longest, start, path, children, cycles0, visited0, paths0);
    ExploredAfter(parentChildren, start, path, cycles0, cycles, paths0, paths);
    DegreeBound(parentChildren, path[|path| - 1]);
    PushedWeighLess(degree, |children|, Weight(degree, longest, |path| + 1));
  }

  method TryChildren<T(==,!new)>(
      ghost edges: set<(T, T)>, ghost degree: nat, ghost longest: nat, ghost start: T, path: seq<T>,
      children: seq<T>, cycles0: seq<seq<T>>, visited0: set<T>, paths0: seq<seq<T>>)
    returns (cycles: seq<seq<T>>, visited: set<T>, paths: seq<seq<T>>)
    requires IsPath(edges, start, path) && CyclesOk(edges, cycles0)
    requires forall c :: c in children ==> (path[|path| - 1], c) in edges
    requires forall k :: 0 <= k < |paths0| ==> IsPath(edges, start, paths0[k])
    ensures CyclesOk(edges, cycles) && cycles0 <= cycles && visited0 <= visited && paths0 <= paths
    ensures forall k :: 0 <= k < |paths| ==> IsPath(edges, start, paths[k])
    ensures forall v :: v in visited - visited0 ==> Reaches(edges, start, v)
    ensures AllHandled(path, children, cycles, paths)
    ensures StackWeight(degree, longest, paths)
         <= StackWeight(degree, longest, paths0) + |children| * Weight(degree, longest, |path| + 1)
  {
    hide CyclesOk, Reaches, Handled, StackWeight, Weight, NoDup, TriedChild, IsPath;
    cycles, visited, paths := cycles0, visited0, paths0;
    for j := 0 to |children|
      invariant CyclesOk(edges, cycles) && cycles0 <= cycles && visited0 <= visited && paths0 <= paths
      invariant forall k :: 0 <= k < |paths| ==> IsPath(edges, start, paths[k])
      invariant forall v :: v in visited - visited0 ==> Reaches(edges, start, v)
      invariant AllHandled(path, children[..j], cycles, paths)
      invariant StackWeight(degree, longest, paths)
             <= StackWeight(degree, longest, paths0) + j * Weight(degree, longest, |path| + 1)
    {
      ghost var c, p := cycles, paths;
      assert children[j] in children;
      cycles, visited, paths := TryChild(edges, degree, longest, start, path, children[j], cycles, visited, paths);
      HandledMore(path, children[..j], c, cycles, p, paths);
    }
    assert children[..|children|] == children;
  }

  lemma HandledMore<T>(path: seq<T>, children: seq<T>, cycles: seq<seq<T>>, moreCycles: seq<seq<T>>,
                       paths: seq<seq<T>>, morePaths: seq<seq<T>>)
    requires cycles <= moreCycles && paths <= morePaths
    requires AllHandled(path, children, cycles, paths)
    ensures AllHandled(path, children, moreCycles, morePaths)
  {
  }

  /**
   What trying a child does: one on the path closes a cycle, recorded unless a rotation of it is, and any other
   is marked visited and extends the path onto the stack.
   */
  ghost predicate TriedChild<T>(
      path: seq<T>, child: T, cycles0: seq<seq<T>>, visited0: set<T>, paths0: seq<seq<T>>,
      cycles: seq<seq<T>>, visited: set<T>, paths: seq<seq<T>>) {
    if child in path then
      var cycle := path[IndexOf(path, child)..];
      visited == visited0 && paths == paths0 && cycles == if Found(cycles0, cycle) then cycles0 else cycles0 + [cycle]
    else
      visited == visited0 + {child} && paths == paths0 + [path + [child]] && cycles == cycles0
  }

  /** The body of the loop over children. */
  method TryChild<T(==,!new)>(
      ghost edges: set<(T, T)>, ghost degree: nat, ghost longest: nat, ghost start: T,
      path: seq<T>, child: T, cycles0: seq<seq<T>>, visited0: set<T>, paths0: seq<seq<T>>)
    returns (cycles: seq<seq<T>>, visited: set<T>, paths: seq<seq<T>>)
    requires IsPath(edges, start, path) && (path[|path| - 1], child) in edges
    requires CyclesOk(edges, cycles0)
    ensures CyclesOk(edges, cycles) && cycles0 <= cycles
    ensures Handled(path, child, cycles, paths)
    ensures visited == visited0 || (visited == visited0 + {child} && Reaches(edges, start, child))
    ensures paths == paths0 || (paths == paths0 + [path + [child]] && IsPath(edges, start, path + [child]))
    ensures TriedChild(path, child, cycles0, visited0, paths0, cycles, visited, paths)
    ensures StackWeight(degree, longest, paths)
         <= StackWeight(degree, longest, paths0) + Weight(degree, longest, |path| + 1)
  {
    cycles, visited, paths := cycles0, visited0, paths0;
    if child in path {
      var cycle := path[IndexOf(path, child)..];
      TailIsCycle(edges, path, child);
      var isDup := IsDuplicate(cycles, cycle);
      if !isDup {
        cycles := cycles + [cycle];
        assert Rotate(cycle, 0) == cycle && cycles[|cycles| - 1] == cycle;
      }
    } else {
      assert IsPath(edges, start, path + [child]);
      assert IsWalkFromTo(edges, path + [child], start, child);
      paths := paths + [path + [child]];
      assert paths[|paths| - 1] == path + [child];
      visited := visited + {child};
    }
  }

  method IsDuplicate<T(==)>(cycles: seq<seq<T>>, cycle: seq<T>) returns (isDup: bool)
    requires cycle != []
    ensures isDup <==> Found(cycles, cycle)
  {
    for i := 0 to |cycles|
      invariant forall k :: 0 <= k < i ==> !IsRotation(cycles[k], cycle)
    {
      var r := IsRotated(cycles[i], cycle);
      if r.value {
        return true;
      }
    }
    isDup := false;
  }

  lemma WalkStepsOnKeys<T>(parentChildren: map<T, seq<T>>, w: seq<T>, i: nat)
    requires IsWalk(EdgesOf(parentChildren), w) && i + 1 < |w|
    ensures w[i] in parentChildren
  {
    assert (w[i], w[i + 1]) in EdgesOf(parentChildren);
  }

  lemma DeadEnd<T(!new)>(parentChildren: map<T, seq<T>>, start: T, all: seq<seq<T>>, cycles: seq<seq<T>>)
    requires all != [] && Explored(EdgesOf(parentChildren), start, all, cycles)
    requires IsPath(EdgesOf(parentChildren), start, all[|all| - 1])
    requires all[|all| - 1][|all[|all| - 1]| - 1] !in parentChildren
    ensures Explored(EdgesOf(parentChildren), start, all[..|all| - 1], cycles)
  {
    var edges, path, rest := EdgesOf(parentChildren), all[|all| - 1], all[..|all| - 1];
    forall w | IsPath(edges, start, w) && path <= w ensures w == path {
      if |path| < |w| {
        WalkStepsOnKeys(parentChildren, w, |path| - 1);
      }
    }
    forall w | IsPath(edges, start, w) && !Closed(edges, w, cycles)
      ensures exists k :: 0 <= k < |rest| && rest[k] <= w
    {
      var k :| 0 <= k < |all| && all[k] <= w;
      assert rest[k] <= w;
    }
  }

  lemma ExploredAfter<T(!new)>(
      parentChildren: map<T, seq<T>>, start: T, path: seq<T>,
      cycles0: seq<seq<T>>, cycles: seq<seq<T>>, paths0: seq<seq<T>>, paths: seq<seq<T>>)
    requires IsPath(EdgesOf(parentChildren), start, path) && path[|path| - 1] in parentChildren
    requires Explored(EdgesOf(parentChildren), start, paths0 + [path], cycles0)
    requires cycles0 <= cycles && paths0 <= paths
    requires AllHandled(path, parentChildren[path[|path| - 1]], cycles, paths)
    ensures Explored(EdgesOf(parentChildren), start, paths, cycles)
  {
    var edges := EdgesOf(parentChildren);
    forall w | IsPath(edges, start, w)
      ensures Closed(edges, w, cycles) || exists k :: 0 <= k < |paths| && paths[k] <= w
    {
      if Closed(edges, w, cycles0) {
      } else {
        var all := paths0 + [path];
        var k :| 0 <= k < |all| && all[k] <= w;
        if k < |paths0| {
          assert paths[k] <= w;
        } else if w != path {
          NextOnStack(parentChildren, path, w, cycles, paths);
        } else {
          ClosedNow(parentChildren, path, cycles, paths);
        }
      }
    }
  }

  lemma ClosedNow<T(!new)>(
      parentChildren: map<T, seq<T>>, path: seq<T>, cycles: seq<seq<T>>, paths: seq<seq<T>>)
    requires path != [] && path[|path| - 1] in parentChildren
    requires AllHandled(path, parentChildren[path[|path| - 1]], cycles, paths)
    ensures Closed(EdgesOf(parentChildren), path, cycles)
  {
  }

  lemma NextOnStack<T(!new)>(
      parentChildren: map<T, seq<T>>, path: seq<T>, w: seq<T>, cycles: seq<seq<T>>, paths: seq<seq<T>>)
    requires path != [] && path[|path| - 1] in parentChildren
    requires IsWalk(EdgesOf(parentChildren), w) && NoDup(w) && path < w
    requires AllHandled(path, parentChildren[path[|path| - 1]], cycles, paths)
    ensures exists k :: 0 <= k < |paths| && paths[k] <= w
  {
    var children, x := parentChildren[path[|path| - 1]], w[|path|];
    assert (w[|path| - 1], w[|path|]) in EdgesOf(parentChildren);
    var i :| 0 <= i < |children| && children[i] == x;
    assert Handled(path, children[i], cycles, paths);
    assert path + [x] in paths && path + [x] <= w;
  }
}
