/**
 The breadth-first search from a host, as a function of the network: the state after any number
 of queue entries, and what that state means.
 */
module Bfs {
  import opened Collections
  import opened Network

  /** hops lists, for each node, the neighbours nearer to the host that were found for it. */
  datatype Search = Search(
    q: seq<Node>, dis: map<Node, nat>, delay: map<Node, nat>, txDelay: map<Node, nat>, bw: map<Node, nat>,
    hops: map<Node, seq<Node>>)

  function Start(host: Node): Search {
    Search([host], map[host := 0], map[host := 0], map[host := 0], map[host := U64 - 1], map[])
  }

  /** A map's entry, or the zero that reading a missing entry creates. */
  function Entry(m: map<Node, nat>, x: Node): nat {
    if x in m then m[x] else 0
  }

  function HopsOf(hops: map<Node, seq<Node>>, x: Node): seq<Node> {
    if x in hops then hops[x] else []
  }

  function Discover(g: Graph, s: Search, now: Node, next: Node): Search
    requires Up(g, now, next) && 0 < Link(g, now, next).bw
  {
    var link := Link(g, now, next);
    s.(dis := s.dis[next := Entry(s.dis, now) + 1],
       delay := s.delay[next := Add64(Entry(s.delay, now), link.delay)],
       txDelay := s.txDelay[next := Add64(Entry(s.txDelay, now), LinkTxTime(g, now, next))],
       bw := s.bw[next := Min(Entry(s.bw, now), link.bw)],
       q := if next in g.switches then s.q + [next] else s.q)
  }

  function AddHop(s: Search, now: Node, next: Node): Search {
    if Entry(s.dis, now) + 1 == Entry(s.dis, next)
    then s.(hops := s.hops[next := HopsOf(s.hops, next) + [now]])
    else s
  }

  /** One live link out of the node being visited. */
  function Relax(g: Graph, s: Search, now: Node, next: Node): Search
    requires Up(g, now, next) && 0 < Link(g, now, next).bw
  {
    AddHop(if next in s.dis then s else Discover(g, s, now, next), now, next)
  }

  /** One neighbour tried. */
  function Try(g: Graph, s: Search, now: Node, next: Node): Search
    requires forall b :: Up(g, now, b) ==> 0 < Link(g, now, b).bw
  {
    if Up(g, now, next) then Relax(g, s, now, next) else s
  }

  /** The first k possible neighbours of the node being visited. */
  function Scan(g: Graph, s: Search, now: Node, k: nat): Search
    requires k <= |g.order|
    requires forall b :: Up(g, now, b) ==> 0 < Link(g, now, b).bw
  {
    if k == 0 then s else Try(g, Scan(g, s, now, k - 1), now, g.order[k - 1])
  }

  /** The search after the first i queue entries, or after all of them if there are fewer. */
  function After(g: Graph, host: Node, i: nat): Search
    requires forall a, b :: Up(g, a, b) ==> 0 < Link(g, a, b).bw
  {
    if i == 0 then Start(host)
    else
      var s := After(g, host, i - 1);
      if i - 1 < |s.q| then Scan(g, s, s.q[i - 1], |g.order|) else s
  }

  /** The finished search: no queue holds more than every node of the order and the host. */
  function Final(g: Graph, host: Node): Search
    requires forall a, b :: Up(g, a, b) ==> 0 < Link(g, a, b).bw
  {
    After(g, host, |g.order| + 1)
  }

  // ----- the invariant

  /** Only the host and switches forward packets. */
  predicate Transit(g: Graph, host: Node, x: Node) {
    x == host || x in g.switches
  }

  /**
   The link from y to x was scanned: y is an entry already done, or it is the entry being
   scanned and x is among the neighbours tried so far.
   */
  ghost predicate Scanned(g: Graph, done: set<Node>, now: Node, tried: set<Node>, y: Node, x: Node) {
    Up(g, y, x) && (y in done || (y == now && x in tried))
  }

  ghost predicate QueueOk(g: Graph, host: Node, q: seq<Node>, dis: map<Node, nat>) {
    && NoDup(q) && q != [] && q[0] == host && host in dis && dis[host] == 0
    && (forall x :: x in q <==> x in dis && Transit(g, host, x))
    && (forall x :: x in dis ==> x == host || x in g.order)
  }

  /** Distances grow along the queue, and nothing is more than one hop beyond the entry at i. */
  ghost predicate Spread(q: seq<Node>, dis: map<Node, nat>, i: nat) {
    && (forall m, n :: 0 <= m < n < |q| && q[m] in dis && q[n] in dis ==> dis[q[m]] <= dis[q[n]])
    && (i < |q| && q[i] in dis ==> forall x :: x in dis ==> dis[x] <= dis[q[i]] + 1)
  }

  /** p is a route to x with all these figures. */
  ghost predicate RouteHas(
      g: Graph, host: Node, x: Node, p: seq<Node>, hops: nat, delay: nat, txDelay: nat, bw: nat)
    requires WellFormed(g)
  {
    IsRoute(g, host, x, p) && |p| == hops + 1 && SumsOf(g, p, delay, txDelay) && NarrowestLink(g, p, bw)
  }

  /** One single route to x has all these figures. */
  ghost predicate HasRoute(
      g: Graph, host: Node, x: Node, hops: nat, delay: nat, txDelay: nat, bw: nat)
    requires WellFormed(g)
  {
    exists p :: RouteHas(g, host, x, p, hops, delay, txDelay, bw)
  }

  ghost predicate Witnessed(g: Graph, host: Node, s: Search)
    requires WellFormed(g)
  {
    && s.delay.Keys == s.dis.Keys && s.txDelay.Keys == s.dis.Keys && s.bw.Keys == s.dis.Keys
    && forall x :: x in s.dis ==> HasRoute(g, host, x, s.dis[x], s.delay[x], s.txDelay[x], s.bw[x])
  }

  /** Whatever was scanned from an entry is reached, at most one hop further. */
  ghost predicate ScannedReached(
      g: Graph, dis: map<Node, nat>, done: set<Node>, now: Node, tried: set<Node>) {
    forall y, x :: Scanned(g, done, now, tried, y, x) ==> x in dis && y in dis && dis[x] <= dis[y] + 1
  }

  /** y is a scanned entry exactly one hop nearer to the host than its neighbour x. */
  ghost predicate IsHop(
      g: Graph, dis: map<Node, nat>, done: set<Node>, now: Node, tried: set<Node>, y: Node, x: Node) {
    Scanned(g, done, now, tried, y, x) && x in dis && y in dis && dis[y] + 1 == dis[x]
  }

  /** The next hops of x are the scanned entries exactly one hop nearer, each once. */
  ghost predicate HopsOk(
      g: Graph, dis: map<Node, nat>, hops: map<Node, seq<Node>>, done: set<Node>, now: Node, tried: set<Node>) {
    && (forall x, y :: y in HopsOf(hops, x) <==> IsHop(g, dis, done, now, tried, y, x))
    && (forall x :: NoDup(HopsOf(hops, x)))
  }

  /** i entries are done and the first k of the order were tried for the entry at i. */
  ghost predicate Inv(g: Graph, host: Node, s: Search, i: nat, k: nat) {
    && WellFormed(g) && i <= |s.q| && k <= |g.order|
    && QueueOk(g, host, s.q, s.dis)
    && Spread(s.q, s.dis, i)
    && Witnessed(g, host, s)
    && var done, now, tried := Elems(s.q[..i]), if i < |s.q| then s.q[i] else host, Elems(g.order[..k]);
       ScannedReached(g, s.dis, done, now, tried) && HopsOk(g, s.dis, s.hops, done, now, tried)
  }

  // ----- every step keeps it

  lemma StartInv(g: Graph, host: Node)
    requires WellFormed(g)
    ensures Inv(g, host, Start(host), 0, 0)
  {
    hide Up;
    assert RouteHas(g, host, host, [host], 0, 0, 0, U64 - 1);
  }

  lemma DiscoverQueue(g: Graph, host: Node, q: seq<Node>, dis: map<Node, nat>, i: nat, next: Node)
    requires WellFormed(g) && QueueOk(g, host, q, dis) && Spread(q, dis, i)
    requires i < |q| && Up(g, q[i], next) && next !in dis
    ensures QueueOk(g, host, if next in g.switches then q + [next] else q, dis[next := Entry(dis, q[i]) + 1])
    ensures Spread(if next in g.switches then q + [next] else q, dis[next := Entry(dis, q[i]) + 1], i)
  {
    hide Link, NoDup, QueueOk, Spread;
    EntryReached(g, host, q, dis, i);
    QueueMore(g, host, q, dis, next, dis[q[i]] + 1);
    SpreadMore(q, dis, i, next, next in g.switches);
  }

  lemma QueueMore(g: Graph, host: Node, q: seq<Node>, dis: map<Node, nat>, next: Node, d: nat)
    requires QueueOk(g, host, q, dis) && next !in dis && next != host && next !in q && next in g.order
    ensures QueueOk(g, host, if next in g.switches then q + [next] else q, dis[next := d])
  {
    NoDupPush(q, next);
    var more := if next in g.switches then q + [next] else q;
    assert forall x :: x in more <==> x in q || (x == next && next in g.switches);
    hide NoDup;
  }

  lemma SpreadMore(q: seq<Node>, dis: map<Node, nat>, i: nat, next: Node, queued: bool)
    requires i < |q| && Spread(q, dis, i) && next !in dis && forall x :: x in q ==> x in dis
    ensures Spread(if queued then q + [next] else q, dis[next := dis[q[i]] + 1], i)
  {
    var more := if queued then q + [next] else q;
    assert forall m :: 0 <= m < |q| ==> more[m] == q[m] && q[m] in q;
  }

  lemma RouteToNext(
      g: Graph, host: Node, now: Node, next: Node, hops: nat, delay: nat, txDelay: nat, bw: nat)
    requires WellFormed(g) && HasRoute(g, host, now, hops, delay, txDelay, bw)
    requires Up(g, now, next) && (hops == 0 || now in g.switches)
    ensures HasRoute(g, host, next, hops + 1, Add64(delay, Link(g, now, next).delay),
                     Add64(txDelay, LinkTxTime(g, now, next)), Min(bw, Link(g, now, next).bw))
  {
    var p :| RouteHas(g, host, now, p, hops, delay, txDelay, bw);
    RouteExtend(g, host, now, p, next);
    SumsExtend(g, p, now, next, delay, txDelay);
    NarrowestExtend(g, p, next, bw);
    assert RouteHas(g, host, next, p + [next], hops + 1, Add64(delay, Link(g, now, next).delay),
                    Add64(txDelay, LinkTxTime(g, now, next)), Min(bw, Link(g, now, next).bw));
  }

  lemma DiscoverWitness(g: Graph, host: Node, s: Search, now: Node, next: Node)
    requires WellFormed(g) && Witnessed(g, host, s)
    requires now in s.dis && Up(g, now, next) && next !in s.dis
    requires s.dis[now] == 0 || now in g.switches
    ensures Witnessed(g, host, Discover(g, s, now, next))
  {
    hide HasRoute;
    RouteToNext(g, host, now, next, s.dis[now], s.delay[now], s.txDelay[now], s.bw[now]);
    var t := Discover(g, s, now, next);
    forall x | x in t.dis ensures HasRoute(g, host, x, t.dis[x], t.delay[x], t.txDelay[x], t.bw[x]) {
      if x != next {
        assert t.dis[x] == s.dis[x] && t.delay[x] == s.delay[x] && t.txDelay[x] == s.txDelay[x] && t.bw[x] == s.bw[x];
      }
    }
  }

  lemma DiscoverScans(
      g: Graph, dis: map<Node, nat>, hops: map<Node, seq<Node>>, done: set<Node>, now: Node, tried: set<Node>,
      next: Node, d: nat)
    requires next !in dis
    requires ScannedReached(g, dis, done, now, tried) && HopsOk(g, dis, hops, done, now, tried)
    ensures ScannedReached(g, dis[next := d], done, now, tried)
    ensures HopsOk(g, dis[next := d], hops, done, now, tried)
  {
  }

  lemma TryScans(
      g: Graph, dis: map<Node, nat>, hops: map<Node, seq<Node>>, done: set<Node>, now: Node, tried: set<Node>,
      next: Node, hops': map<Node, seq<Node>>)
    requires now !in done && next !in tried
    requires Up(g, now, next) ==> now in dis && next in dis && dis[next] <= dis[now] + 1
    requires ScannedReached(g, dis, done, now, tried) && HopsOk(g, dis, hops, done, now, tried)
    requires hops' == if Up(g, now, next) && dis[now] + 1 == dis[next]
                      then hops[next := HopsOf(hops, next) + [now]] else hops
    ensures ScannedReached(g, dis, done, now, tried + {next})
    ensures HopsOk(g, dis, hops', done, now, tried + {next})
  {
    hide NoDup, Up;
    var tried' := tried + {next};
    forall y, x ensures Scanned(g, done, now, tried', y, x)
                   <==> Scanned(g, done, now, tried, y, x) || (y == now && x == next && Up(g, now, next))
    {
    }
    assert now !in HopsOf(hops, next);
    forall x, y ensures y in HopsOf(hops', x) <==> IsHop(g, dis, done, now, tried', y, x) {
      assert y in HopsOf(hops, x) <==> IsHop(g, dis, done, now, tried, y, x);
    }
    NoDupPush(HopsOf(hops, next), now);
    forall x ensures NoDup(HopsOf(hops', x)) {
      assert NoDup(HopsOf(hops, x));
    }
  }

  lemma NextScans(
      g: Graph, dis: map<Node, nat>, hops: map<Node, seq<Node>>, done: set<Node>, now: Node, tried: set<Node>,
      then': Node)
    requires WellFormed(g) && tried == Elems(g.order)
    requires ScannedReached(g, dis, done, now, tried) && HopsOk(g, dis, hops, done, now, tried)
    ensures ScannedReached(g, dis, done + {now}, then', {}) && HopsOk(g, dis, hops, done + {now}, then', {})
  {
    hide NoDup, HopsOf;
    forall y, x ensures Scanned(g, done + {now}, then', {}, y, x) <==> Scanned(g, done, now, tried, y, x) {
      assert Up(g, y, x) ==> x in tried;
    }
    forall x, y
      ensures IsHop(g, dis, done + {now}, then', {}, y, x) <==> IsHop(g, dis, done, now, tried, y, x)
    {
      assert Scanned(g, done + {now}, then', {}, y, x) <==> Scanned(g, done, now, tried, y, x);
    }
  }

  lemma EntryReached(g: Graph, host: Node, q: seq<Node>, dis: map<Node, nat>, i: nat)
    requires QueueOk(g, host, q, dis) && i < |q|
    ensures q[i] in dis && (dis[q[i]] == 0 || q[i] in g.switches)
    ensures host in dis && forall x :: x in q ==> x in dis
  {
    assert q[i] in q;
  }

  lemma DiscoverInv(g: Graph, host: Node, s: Search, i: nat, k: nat, next: Node)
    requires Inv(g, host, s, i, k) && i < |s.q|
    requires Up(g, s.q[i], next) && 0 < Link(g, s.q[i], next).bw && next !in s.dis
    ensures Inv(g, host, Discover(g, s, s.q[i], next), i, k)
    ensures s.q <= Discover(g, s, s.q[i], next).q
  {
    hide Spread, HasRoute, ScannedReached, HopsOk, Up, WellFormed, QueueOk;
    EntryReached(g, host, s.q, s.dis, i);
    DiscoverQueue(g, host, s.q, s.dis, i, next);
    DiscoverWitness(g, host, s, s.q[i], next);
    DiscoverScans(g, s.dis, s.hops, Elems(s.q[..i]), s.q[i], Elems(g.order[..k]), next, s.dis[s.q[i]] + 1);
    assert Discover(g, s, s.q[i], next).q[..i] == s.q[..i];
  }

  lemma TryInv(g: Graph, host: Node, s: Search, i: nat, k: nat)
    requires WellFormed(g) && Inv(g, host, s, i, k) && i < |s.q| && k < |g.order|
    ensures s.q <= Try(g, s, s.q[i], g.order[k]).q
    ensures Inv(g, host, Try(g, s, s.q[i], g.order[k]), i, k + 1)
  {
    hide Inv;
    var now, next := s.q[i], g.order[k];
    if Up(g, now, next) && next !in s.dis {
      DiscoverInv(g, host, s, i, k, next);
      HopInv(g, host, Discover(g, s, now, next), i, k);
    } else {
      HopInv(g, host, s, i, k);
    }
  }

  lemma SpreadAt(q: seq<Node>, dis: map<Node, nat>, i: nat, x: Node)
    requires Spread(q, dis, i) && i < |q| && q[i] in dis && x in dis
    ensures dis[x] <= dis[q[i]] + 1
  {
  }

  lemma HopInv(g: Graph, host: Node, s: Search, i: nat, k: nat)
    requires Inv(g, host, s, i, k) && i < |s.q| && k < |g.order|
    requires Up(g, s.q[i], g.order[k]) ==> g.order[k] in s.dis
    ensures Inv(g, host, if Up(g, s.q[i], g.order[k]) then AddHop(s, s.q[i], g.order[k]) else s, i, k + 1)
  {
    hide Spread, HasRoute, ScannedReached, HopsOk;
    var now, next := s.q[i], g.order[k];
    assert now in s.q;
    ElemsUpTo(g.order, k);
    ElemsUpTo(s.q, i);
    if next in s.dis {
      SpreadAt(s.q, s.dis, i, next);
    }
    var u := if Up(g, now, next) then AddHop(s, now, next) else s;
    TryScans(g, s.dis, s.hops, Elems(s.q[..i]), now, Elems(g.order[..k]), next, u.hops);
  }

  lemma {:induction false} ScanInv(g: Graph, host: Node, s: Search, i: nat, k: nat)
    requires WellFormed(g) && Inv(g, host, s, i, 0) && i < |s.q| && k <= |g.order|
    ensures s.q <= Scan(g, s, s.q[i], k).q
    ensures Inv(g, host, Scan(g, s, s.q[i], k), i, k)
  {
    hide Inv;
    if 0 < k {
      ScanInv(g, host, s, i, k - 1);
      TryInv(g, host, Scan(g, s, s.q[i], k - 1), i, k - 1);
    }
  }

  lemma NextEntry(g: Graph, host: Node, s: Search, i: nat)
    requires i < |s.q| && Inv(g, host, s, i, |g.order|)
    ensures Inv(g, host, s, i + 1, 0)
  {
    hide HasRoute, ScannedReached, HopsOk;
    ElemsUpTo(s.q, i);
    assert g.order[..|g.order|] == g.order && Elems(g.order[..0]) == {};
    assert s.q[i] in s.q;
    NextScans(g, s.dis, s.hops, Elems(s.q[..i]), s.q[i], Elems(g.order),
              if i + 1 < |s.q| then s.q[i + 1] else host);
  }

  function Done(s: Search, i: nat): nat {
    if i < |s.q| then i else |s.q|
  }

  lemma {:induction false} AfterInv(g: Graph, host: Node, i: nat)
    requires WellFormed(g)
    ensures Inv(g, host, After(g, host, i), Done(After(g, host, i), i), 0)
  {
    hide Inv;
    if i == 0 {
      StartInv(g, host);
    } else {
      AfterInv(g, host, i - 1);
      var s := After(g, host, i - 1);
      if i - 1 < |s.q| {
        ScanInv(g, host, s, i - 1, |g.order|);
        NextEntry(g, host, Scan(g, s, s.q[i - 1], |g.order|), i - 1);
      }
    }
  }

  lemma QueueFits(g: Graph, host: Node, s: Search)
    requires QueueOk(g, host, s.q, s.dis)
    ensures |s.q| <= |g.order| + 1
  {
    forall x | x in s.q[1..] ensures x in Elems(g.order) {
      assert x in s.q;
    }
    NoDupBound(s.q[1..], Elems(g.order));
    ElemsSize(g.order);
  }

  lemma ElemsSize<T>(s: seq<T>)
    ensures |Elems(s)| <= |s|
  {
    if s != [] {
      var front, last := s[..|s| - 1], s[|s| - 1];
      assert s == front + [last];
      ElemsAppend(front, [last]);
      ElemsSize(front);
      assert Elems([last]) == {last};
    }
  }

  lemma NothingMore(g: Graph, host: Node, i: nat, j: nat)
    requires forall a, b :: Up(g, a, b) ==> 0 < Link(g, a, b).bw
    requires i <= j && |After(g, host, i).q| <= i
    ensures After(g, host, j) == After(g, host, i)
    decreases j
  {
    if i < j {
      NothingMore(g, host, i, j - 1);
    }
  }

  lemma NothingVisited(g: Graph, host: Node)
    requires WellFormed(g)
    ensures After(g, host, 0) == Start(host)
  {
  }

  /** The entry about to be visited has its distance recorded, and visiting it is one more scan. */
  lemma EntryInQueue(g: Graph, host: Node, i: nat)
    requires WellFormed(g) && i < |After(g, host, i).q|
    ensures After(g, host, i).q[i] in After(g, host, i).dis
    ensures i <= |g.order|
    ensures After(g, host, i + 1) == Scan(g, After(g, host, i), After(g, host, i).q[i], |g.order|)
  {
    AfterInv(g, host, i);
    var s := After(g, host, i);
    EntryReached(g, host, s.q, s.dis, i);
    QueueFits(g, host, s);
  }

  /** Once every entry is visited the search is finished. */
  lemma QueueDrained(g: Graph, host: Node, i: nat)
    requires WellFormed(g) && |After(g, host, i).q| == i
    ensures After(g, host, i) == Final(g, host)
  {
    AfterInv(g, host, i);
    QueueFits(g, host, After(g, host, i));
    NothingMore(g, host, i, |g.order| + 1);
  }

  // ----- what the finished search says

  lemma FinalInv(g: Graph, host: Node)
    requires WellFormed(g)
    ensures var s := Final(g, host);
            && QueueOk(g, host, s.q, s.dis) && Witnessed(g, host, s)
            && ScannedReached(g, s.dis, Elems(s.q), host, {})
            && HopsOk(g, s.dis, s.hops, Elems(s.q), host, {})
  {
    hide Spread, HasRoute, ScannedReached, HopsOk, QueueOk;
    var s := Final(g, host);
    AfterInv(g, host, |g.order| + 1);
    QueueFits(g, host, s);
    assert s.q[..|s.q|] == s.q && Elems(g.order[..0]) == {};
  }

  /** At every moment the waiting entries have distances in order, at most one apart. */
  lemma QueueSpread(g: Graph, host: Node, i: nat)
    requires WellFormed(g)
    ensures var s := After(g, host, i);
            forall m, n :: i <= m < n < |s.q| ==>
              s.q[m] in s.dis && s.q[n] in s.dis && s.dis[s.q[m]] <= s.dis[s.q[n]] <= s.dis[s.q[m]] + 1
  {
    hide HasRoute, ScannedReached, HopsOk;
    AfterInv(g, host, i);
    var s := After(g, host, i);
    forall m, n | i <= m < n < |s.q|
      ensures s.q[m] in s.dis && s.q[n] in s.dis && s.dis[s.q[m]] <= s.dis[s.q[n]] <= s.dis[s.q[m]] + 1
    {
      assert s.q[i] in s.q && s.q[m] in s.q && s.q[n] in s.q;
    }
  }

  /** A live link out of a forwarding node lengthens the distance by at most one. */
  lemma StepBound(g: Graph, host: Node, y: Node, x: Node)
    requires WellFormed(g) && y in Final(g, host).dis && Transit(g, host, y) && Up(g, y, x)
    ensures x in Final(g, host).dis && Final(g, host).dis[x] <= Final(g, host).dis[y] + 1
  {
    hide Witnessed, HopsOk, Up;
    FinalInv(g, host);
    var s := Final(g, host);
    assert y in s.q;
    assert Scanned(g, Elems(s.q), host, {}, y, x);
  }

  /** A route comes to its end by a live link out of a forwarding node. */
  lemma LastHop(g: Graph, host: Node, x: Node, p: seq<Node>)
    requires IsRoute(g, host, x, p) && 1 < |p|
    ensures Up(g, p[|p| - 2], x) && Transit(g, host, p[|p| - 2])
  {
    hide Up;
  }

  lemma HostReached(g: Graph, host: Node)
    requires WellFormed(g)
    ensures host in Final(g, host).dis && Final(g, host).dis[host] == 0
  {
    hide Final, Witnessed, ScannedReached, HopsOk;
    FinalInv(g, host);
  }

  /** No route is shorter than the recorded distance, and every routed node is reached. */
  lemma {:induction false} RouteBound(g: Graph, host: Node, x: Node, p: seq<Node>)
    requires WellFormed(g) && IsRoute(g, host, x, p)
    ensures x in Final(g, host).dis && Final(g, host).dis[x] + 1 <= |p|
    decreases |p|
  {
    hide Final, Up, Transit;
    HostReached(g, host);
    if 1 < |p| {
      RouteBound(g, host, p[|p| - 2], p[..|p| - 1]);
      LastHop(g, host, x, p);
      StepBound(g, host, p[|p| - 2], x);
    }
  }

  /** The search reaches exactly the routable nodes, at their least hop count. */
  lemma DistanceExact(g: Graph, host: Node, x: Node)
    requires WellFormed(g)
    ensures x in Final(g, host).dis <==> Reachable(g, host, x)
    ensures x in Final(g, host).dis ==> MinHops(g, host, x, Final(g, host).dis[x])
  {
    FinalInv(g, host);
    var s := Final(g, host);
    if x in s.dis {
      var p :| RouteHas(g, host, x, p, s.dis[x], s.delay[x], s.txDelay[x], s.bw[x]);
    }
    forall p | IsRoute(g, host, x, p) ensures x in s.dis && s.dis[x] + 1 <= |p| {
      RouteBound(g, host, x, p);
    }
  }

  /** One least-hop route accounts for the recorded delay, transmit time and bandwidth together. */
  lemma MetricsWitness(g: Graph, host: Node, x: Node)
    requires WellFormed(g) && x in Final(g, host).dis
    ensures var s := Final(g, host);
            && MinHops(g, host, x, s.dis[x])
            && x in s.delay && x in s.txDelay && x in s.bw
            && HasRoute(g, host, x, s.dis[x], s.delay[x], s.txDelay[x], s.bw[x])
  {
    FinalInv(g, host);
    DistanceExact(g, host, x);
  }

  /**
   The recorded figures of a node, written out: along one least-hop route the delay is the sum of the links'
   delays and the transmit time the sum of the links' rounded-down times, both modulo 2^64, and the bandwidth
   is the least of the links'.
   */
  lemma RecordedFigures(g: Graph, host: Node, x: Node) returns (p: seq<Node>, delays: seq<nat>, times: seq<nat>)
    requires WellFormed(g) && x in Final(g, host).dis
    ensures IsRoute(g, host, x, p) && MinHops(g, host, x, |p| - 1) && LinkFigures(g, p, delays, times)
    ensures var s := Final(g, host);
            && x in s.delay && s.delay[x] == Sum(delays) % 0x1_0000_0000_0000_0000
            && x in s.txDelay && s.txDelay[x] == Sum(times) % 0x1_0000_0000_0000_0000
            && x in s.bw && NarrowestLink(g, p, s.bw[x])
  {
    hide Final, LinkFigures, MinHops, NarrowestLink;
    MetricsWitness(g, host, x);
    var s := Final(g, host);
    p :| RouteHas(g, host, x, p, s.dis[x], s.delay[x], s.txDelay[x], s.bw[x]);
    delays, times := SumsOfLinks(g, p);
  }
}
