/** Walks, simple walks and cycles of a finite directed graph given by its edges. */
module Digraph {
  import opened Collections

  ghost predicate IsWalk<T>(edges: set<(T, T)>, w: seq<T>) {
    && w != []
    && forall i, j :: 0 <= i && j == i + 1 && j < |w| ==> (w[i], w[j]) in edges
  }

  ghost predicate IsWalkFromTo<T>(edges: set<(T, T)>, w: seq<T>, a: T, b: T) {
    IsWalk(edges, w) && w[0] == a && w[|w| - 1] == b
  }

  ghost predicate Reaches<T(!new)>(edges: set<(T, T)>, a: T, b: T) {
    exists w :: IsWalkFromTo(edges, w, a, b)
  }

  /** x lies on a closed walk of at least one edge. */
  ghost predicate OnCycle<T(!new)>(edges: set<(T, T)>, x: T) {
    exists w :: IsWalkFromTo(edges, w, x, x) && 2 <= |w|
  }

  ghost predicate Acyclic<T(!new)>(edges: set<(T, T)>) {
    forall x :: !OnCycle(edges, x)
  }

  /** x lies on a cycle or is reachable from one. */
  ghost predicate OnOrAfterCycle<T(!new)>(edges: set<(T, T)>, x: T) {
    exists y :: OnCycle(edges, y) && Reaches(edges, y, x)
  }

  /** A repeat-free list whose last item has an edge to its first. */
  ghost predicate IsSimpleCycle<T>(edges: set<(T, T)>, c: seq<T>) {
    IsWalk(edges, c) && NoDup(c) && (c[|c| - 1], c[0]) in edges
  }

  lemma JoinWalks<T>(edges: set<(T, T)>, u: seq<T>, v: seq<T>)
    requires IsWalk(edges, u) && IsWalk(edges, v) && u[|u| - 1] == v[0]
    ensures IsWalkFromTo(edges, u + v[1..], u[0], v[|v| - 1])
  {
  }

  lemma SubWalk<T>(edges: set<(T, T)>, w: seq<T>, from: nat, to: nat)
    requires IsWalk(edges, w) && from < to <= |w|
    ensures IsWalkFromTo(edges, w[from..to], w[from], w[to - 1])
  {
  }

  /** Walk longer than the number of vertices it may use: some vertex repeats. */
  lemma LongWalkHasCycle<T(!new)>(edges: set<(T, T)>, w: seq<T>, vertices: set<T>)
    requires IsWalk(edges, w) && Elems(w) <= vertices && |vertices| < |w|
    ensures exists i :: 0 <= i < |w| && OnCycle(edges, w[i])
  {
    if NoDup(w) {
      NoDupBound(w, vertices);
    } else {
      var i, j :| 0 <= i < j < |w| && w[i] == w[j];
      SubWalk(edges, w, i, j + 1);
      assert OnCycle(edges, w[i]);
    }
  }

  /** Any walk can be shortened to a repeat-free one between the same ends. */
  lemma {:induction false} SimpleWalk<T>(edges: set<(T, T)>, w: seq<T>) returns (p: seq<T>)
    requires IsWalk(edges, w)
    ensures IsWalkFromTo(edges, p, w[0], w[|w| - 1])
    ensures NoDup(p) && Elems(p) <= Elems(w)
    decreases |w|
  {
    if NoDup(w) {
      p := w;
    } else {
      var i, j :| 0 <= i < j < |w| && w[i] == w[j];
      SubWalk(edges, w, 0, i + 1);
      SubWalk(edges, w, j, |w|);
      JoinWalks(edges, w[..i + 1], w[j..]);
      var v := w[..i + 1] + w[j..][1..];
      p := SimpleWalk(edges, v);
      forall x | x in Elems(p) ensures x in Elems(w) {
        assert x in Elems(v);
      }
    }
  }

  lemma ReachesTrans<T(!new)>(edges: set<(T, T)>, a: T, b: T, c: T)
    requires Reaches(edges, a, b) && Reaches(edges, b, c)
    ensures Reaches(edges, a, c)
  {
    var u :| IsWalkFromTo(edges, u, a, b);
    var v :| IsWalkFromTo(edges, v, b, c);
    JoinWalks(edges, u, v);
  }
}
