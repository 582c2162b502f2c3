/** Following next hops: exactly the least-hop routes, and never a dead end. */
module Forwarding {
  import opened Collections
  import opened Network
  import opened Bfs

  function Reverse<T>(s: seq<T>): (r: seq<T>)
    ensures |r| == |s| && forall i :: 0 <= i < |s| ==> r[i] == s[|s| - 1 - i]
  {
    seq(|s|, i requires 0 <= i < |s| => s[|s| - 1 - i])
  }

  /** w starts at a reached node and each node hands over to one of its next hops. */
  ghost predicate Forwards(s: Search, w: seq<Node>) {
    && w != [] && w[0] in s.dis
    && forall i, j :: 0 <= i && j == i + 1 && j < |w| ==> w[j] in HopsOf(s.hops, w[i])
  }

  /** The next hops of x are its forwarding neighbours exactly one hop nearer to the host, each once. */
  lemma NextHopExact(g: Graph, host: Node, x: Node, y: Node)
    requires WellFormed(g)
    ensures var s := Final(g, host);
            && (y in HopsOf(s.hops, x) <==>
                  && x in s.dis && y in s.dis && s.dis[y] + 1 == s.dis[x]
                  && Up(g, y, x) && Transit(g, host, y))
            && NoDup(HopsOf(s.hops, x))
  {
    FinalInv(g, host);
    var s := Final(g, host);
    assert y in HopsOf(s.hops, x) <==> IsHop(g, s.dis, Elems(s.q), host, {}, y, x);
    assert y in Elems(s.q) <==> y in s.dis && Transit(g, host, y);
  }

  /** On a least-hop route the i-th node is exactly i hops from the host. */
  lemma RouteDistances(g: Graph, host: Node, x: Node, p: seq<Node>, i: nat)
    requires WellFormed(g) && IsRoute(g, host, x, p) && MinHops(g, host, x, |p| - 1) && i < |p|
    ensures p[i] in Final(g, host).dis && Final(g, host).dis[p[i]] == i
    ensures i < |p| - 1 ==> Transit(g, host, p[i])
    decreases |p| - i
  {
    hide MinHops;
    RouteBound(g, host, p[i], p[..i + 1]);
    if i == |p| - 1 {
      LeastIsDistance(g, host, x, |p| - 1);
    } else {
      RouteDistances(g, host, x, p, i + 1);
      StepBound(g, host, p[i], p[i + 1]);
    }
  }

  lemma LeastIsDistance(g: Graph, host: Node, x: Node, d: nat)
    requires WellFormed(g) && MinHops(g, host, x, d)
    ensures x in Final(g, host).dis && Final(g, host).dis[x] == d
  {
    DistanceExact(g, host, x);
  }

  lemma HostAtZero(g: Graph, host: Node)
    requires WellFormed(g)
    ensures host in Final(g, host).dis && Final(g, host).dis[host] == 0
    ensures forall x :: x in Final(g, host).dis && Final(g, host).dis[x] == 0 ==> x == host
  {
    HostReached(g, host);
    var s := Final(g, host);
    forall x | x in s.dis && s.dis[x] == 0 ensures x == host {
      DistanceExact(g, host, x);
      var p :| IsRoute(g, host, x, p) && |p| == 1;
    }
  }

  /** A reached node other than the host always has a next hop. */
  lemma NeverStuck(g: Graph, host: Node, x: Node)
    requires WellFormed(g) && x in Final(g, host).dis && x != host
    ensures HopsOf(Final(g, host).hops, x) != []
  {
    DistanceExact(g, host, x);
    var p :| IsRoute(g, host, x, p) && |p| == Final(g, host).dis[x] + 1;
    assert 1 < |p|;
    RouteDistances(g, host, x, p, |p| - 2);
    NextHopExact(g, host, x, p[|p| - 2]);
  }

  /** Each hop lowers the distance by exactly one, so forwarding cannot loop. */
  lemma {:induction false} ForwardDescends(g: Graph, host: Node, w: seq<Node>, i: nat)
    requires WellFormed(g) && Forwards(Final(g, host), w) && i < |w|
    ensures w[i] in Final(g, host).dis && Final(g, host).dis[w[i]] + i == Final(g, host).dis[w[0]]
    ensures 0 < i ==> Transit(g, host, w[i]) && Up(g, w[i], w[i - 1])
  {
    if 0 < i {
      ForwardDescends(g, host, w, i - 1);
      NextHopExact(g, host, w[i - 1], w[i]);
    }
  }

  /**
   The walks that follow next hops to the host are, read backwards, exactly the least-hop
   routes: none is missing and none is longer.
   */
  lemma ForwardingIsLeastHops(g: Graph, host: Node, w: seq<Node>)
    requires WellFormed(g) && w != []
    ensures Forwards(Final(g, host), w) && w[|w| - 1] == host
       <==> IsRoute(g, host, w[0], Reverse(w)) && MinHops(g, host, w[0], |w| - 1)
  {
    if Forwards(Final(g, host), w) && w[|w| - 1] == host {
      ForwardIsRoute(g, host, w);
    }
    if IsRoute(g, host, w[0], Reverse(w)) && MinHops(g, host, w[0], |w| - 1) {
      RouteIsForward(g, host, w);
    }
  }

  lemma ForwardIsRoute(g: Graph, host: Node, w: seq<Node>)
    requires WellFormed(g) && Forwards(Final(g, host), w) && w[|w| - 1] == host
    ensures IsRoute(g, host, w[0], Reverse(w)) && MinHops(g, host, w[0], |w| - 1)
  {
    hide MinHops;
    var s, p, n := Final(g, host), Reverse(w), |w|;
    HostAtZero(g, host);
    ForwardDescends(g, host, w, n - 1);
    DistanceExact(g, host, w[0]);
    forall i, j | 0 <= i && j == i + 1 && j < n ensures Up(g, p[i], p[j]) {
      ForwardDescends(g, host, w, n - 1 - i);
    }
    forall i | 0 < i < n - 1 ensures p[i] in g.switches {
      ForwardDescends(g, host, w, n - 1 - i);
    }
  }

  lemma RouteIsForward(g: Graph, host: Node, w: seq<Node>)
    requires WellFormed(g) && w != []
    requires IsRoute(g, host, w[0], Reverse(w)) && MinHops(g, host, w[0], |w| - 1)
    ensures Forwards(Final(g, host), w) && w[|w| - 1] == host
  {
    hide MinHops;
    var s, p, n := Final(g, host), Reverse(w), |w|;
    assert p[0] == w[n - 1];
    RouteDistances(g, host, w[0], p, n - 1);
    forall i, j | 0 <= i && j == i + 1 && j < n ensures w[j] in HopsOf(s.hops, w[i]) {
      RouteDistances(g, host, w[0], p, n - 1 - i);
      RouteDistances(g, host, w[0], p, n - 1 - j);
      assert Up(g, p[n - 1 - j], p[n - 1 - i]);
      NextHopExact(g, host, w[i], w[j]);
    }
  }

  // ----- the order of next hops

  ghost predicate ComesBefore(q: seq<Node>, a: Node, b: Node) {
    exists m, n :: 0 <= m < n < |q| && q[m] == a && q[n] == b
  }

  /** The next hops of every node stand in queue order. */
  ghost predicate HopsInOrder(s: Search) {
    forall x, k, l :: 0 <= k < l < |HopsOf(s.hops, x)| ==>
      ComesBefore(s.q, HopsOf(s.hops, x)[k], HopsOf(s.hops, x)[l])
  }

  /** A next hop that was found earlier was visited earlier. */
  lemma EarlierHop(g: Graph, host: Node, s: Search, i: nat, k: nat, y: Node)
    requires Inv(g, host, s, i, k) && i < |s.q| && k < |g.order| && y in HopsOf(s.hops, g.order[k])
    ensures ComesBefore(s.q, y, s.q[i])
  {
    hide Spread, Witnessed, ScannedReached, Up;
    var done, tried := Elems(s.q[..i]), Elems(g.order[..k]);
    ElemsUpTo(g.order, k);
    assert IsHop(g, s.dis, done, s.q[i], tried, y, g.order[k]);
    assert y in s.q[..i];
    var m :| 0 <= m < i && s.q[m] == y;
  }

  lemma TryOrder(g: Graph, host: Node, s: Search, i: nat, k: nat)
    requires WellFormed(g) && Inv(g, host, s, i, k) && i < |s.q| && k < |g.order| && HopsInOrder(s)
    ensures HopsInOrder(Try(g, s, s.q[i], g.order[k]))
  {
    hide Inv, Up, ComesBefore;
    var now, next := s.q[i], g.order[k];
    var t := Try(g, s, now, next);
    TryInv(g, host, s, i, k);
    forall x, a, b | 0 <= a < b < |HopsOf(t.hops, x)|
      ensures ComesBefore(t.q, HopsOf(t.hops, x)[a], HopsOf(t.hops, x)[b])
    {
      var old', new' := HopsOf(s.hops, x), HopsOf(t.hops, x);
      assert new' == old' || (x == next && new' == old' + [now]);
      if b == |old'| {
        EarlierHop(g, host, s, i, k, old'[a]);
      }
      StillBefore(s.q, t.q, new'[a], new'[b]);
    }
  }

  lemma StillBefore(q: seq<Node>, more: seq<Node>, a: Node, b: Node)
    requires ComesBefore(q, a, b) && q <= more
    ensures ComesBefore(more, a, b)
  {
    var m, n :| 0 <= m < n < |q| && q[m] == a && q[n] == b;
    assert more[m] == a && more[n] == b;
  }

  lemma {:induction false} ScanOrder(g: Graph, host: Node, s: Search, i: nat, k: nat)
    requires WellFormed(g) && Inv(g, host, s, i, 0) && i < |s.q| && k <= |g.order| && HopsInOrder(s)
    ensures HopsInOrder(Scan(g, s, s.q[i], k))
  {
    hide Inv, HopsInOrder;
    if 0 < k {
      ScanOrder(g, host, s, i, k - 1);
      ScanInv(g, host, s, i, k - 1);
      TryOrder(g, host, Scan(g, s, s.q[i], k - 1), i, k - 1);
    }
  }

  /** Next hops are listed in the order in which the search visits them. */
  lemma {:induction false} SearchOrder(g: Graph, host: Node, i: nat)
    requires WellFormed(g)
    ensures HopsInOrder(After(g, host, i))
  {
    hide Inv, Scan;
    if 0 < i {
      SearchOrder(g, host, i - 1);
      AfterInv(g, host, i - 1);
      var s := After(g, host, i - 1);
      if i - 1 < |s.q| {
        ScanOrder(g, host, s, i - 1, |g.order|);
      }
    }
  }
}
