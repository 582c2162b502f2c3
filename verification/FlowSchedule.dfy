/** The event chain that starts the flows of the flow file, each at its own time. */
module FlowSchedule {
  import opened Collections

  /** Times are simulator ticks. */
  datatype Flow = Flow(src: nat, dst: nat, start: nat)

  datatype Launch = Launch(flow: Flow, at: nat, port: nat)

  const FIRST_PORT := 10000
  const PORTS := 0x1_0000

  ghost predicate SortedByStart(flows: seq<Flow>) {
    forall i, j :: 0 <= i < j < |flows| ==> flows[i].start <= flows[j].start
  }

  /** How many of the first n flows go from src to dst. */
  ghost function PairCount(flows: seq<Flow>, n: nat, src: nat, dst: nat): nat
    requires n <= |flows|
  {
    if n == 0 then 0
    else PairCount(flows, n - 1, src, dst) + if flows[n - 1].src == src && flows[n - 1].dst == dst then 1 else 0
  }

  ghost predicate BetweenHosts(hosts: set<nat>, flow: Flow) {
    flow.src in hosts && flow.dst in hosts
  }

  /** All the flows are between hosts. */
  ghost predicate AllBetweenHosts(hosts: set<nat>, flows: seq<Flow>) {
    forall k :: 0 <= k < |flows| ==> BetweenHosts(hosts, flows[k])
  }

  /** The port of a pair of hosts after n flows. */
  ghost function PortAfter(flows: seq<Flow>, n: nat, src: nat, dst: nat): nat
    requires n <= |flows|
  {
    (FIRST_PORT + PairCount(flows, n, src, dst)) % PORTS
  }

  /** The flow at k starts on time, on the port that counts the earlier flows of its host pair. */
  ghost function Due(flows: seq<Flow>, k: nat): Launch
    requires k < |flows|
  {
    Launch(flows[k], flows[k].start, PortAfter(flows, k, flows[k].src, flows[k].dst))
  }

  /** One more flow moves its own pair one port on, and no other. */
  lemma NextPorts(flows: seq<Flow>, n: nat)
    requires n <= |flows|
    ensures forall src: nat, dst: nat :: PortAfter(flows, 0, src, dst) == FIRST_PORT
    ensures n < |flows| ==> forall src: nat, dst: nat ::
              var port := PortAfter(flows, n, src, dst);
              PortAfter(flows, n + 1, src, dst)
              == if (src, dst) == (flows[n].src, flows[n].dst) then (port + 1) % PORTS else port
  {
  }

  /** The places among the first n flows of those from src to dst. */
  ghost function PlacesOfPair(flows: seq<Flow>, n: nat, src: nat, dst: nat): set<nat>
    requires n <= |flows|
  {
    set j: nat | j < n && flows[j].src == src && flows[j].dst == dst
  }

  lemma {:induction false} PairCounted(flows: seq<Flow>, n: nat, src: nat, dst: nat)
    requires n <= |flows|
    ensures PairCount(flows, n, src, dst) == |PlacesOfPair(flows, n, src, dst)|
  {
    if 0 < n {
      PairCounted(flows, n - 1, src, dst);
      OneMorePlace(flows, n, src, dst);
    }
  }

  lemma OneMorePlace(flows: seq<Flow>, n: nat, src: nat, dst: nat)
    requires 0 < n <= |flows|
    ensures |PlacesOfPair(flows, n, src, dst)|
         == |PlacesOfPair(flows, n - 1, src, dst)| + if flows[n - 1].src == src && flows[n - 1].dst == dst then 1 else 0
  {
    var before, last := PlacesOfPair(flows, n - 1, src, dst), flows[n - 1];
    assert PlacesOfPair(flows, n, src, dst) == before + if last.src == src && last.dst == dst then {n - 1} else {};
  }

  /** What is due, field by field: the port counts the earlier flows with the same ends. */
  lemma DueExactly(flows: seq<Flow>, k: nat)
    requires k < |flows|
    ensures var launch, flow := Due(flows, k), flows[k];
            && launch.flow == flow && launch.at == flow.start
            && launch.port == (10000 + |PlacesOfPair(flows, k, flow.src, flow.dst)|) % 65536
  {
    hide PlacesOfPair;
    PairCounted(flows, k, flows[k].src, flows[k].dst);
  }

  class Simulation {
    const hosts: set<nat>
    const flows: seq<Flow>                // the file
    var idx: nat                          // flows started so far
    var input: Flow                       // the flow read ahead
    var ports: map<(nat, nat), nat>       // next port of each pair, 16 bits wide
    var now: nat
    var scheduled: Option<nat>            // when this chain's next event is due
    var launched: seq<Launch>

    constructor (hosts: set<nat>, flows: seq<Flow>)
      ensures this.hosts == hosts && this.flows == flows && AtStart()
    {
      this.hosts, this.flows := hosts, flows;
      idx, now, scheduled, launched := 0, 0, None, [];
      ports := map i, j | i in hosts && j in hosts :: (i, j) := FIRST_PORT;
      input := Flow(0, 0, 0);
    }

    ghost predicate AtStart()
      reads this
    {
      && idx == 0 && now == 0 && scheduled == None && launched == []
      && forall src, dst :: src in hosts && dst in hosts ==> Port(src, dst) == FIRST_PORT
    }

    /** The flows before idx have been started as they should; nothing is said of the one read ahead. */
    ghost predicate Started()
      reads this
    {
      && idx <= |flows| && |launched| == idx
      && (forall k :: 0 <= k < idx ==> BetweenHosts(hosts, flows[k]) && launched[k] == Due(flows, k))
      && (forall src, dst :: src in hosts && dst in hosts ==> Port(src, dst) == PortAfter(flows, idx, src, dst))
    }

    ghost predicate OnTrack()
      reads this
    {
      Started() && (idx < |flows| ==> input == flows[idx] && BetweenHosts(hosts, input))
    }

    /** A pair's next port, or the zero that looking up a missing pair creates. */
    function Port(src: nat, dst: nat): nat
      reads this
    {
      if (src, dst) in ports then ports[(src, dst)] else 0
    }

    /** Not ok when an end of the flow is no host, which an assertion refuses. */
    method ReadFlowInput() returns (ok: bool)
      modifies this`input
      ensures ok <==> idx < |flows| ==> BetweenHosts(hosts, flows[idx])
      ensures idx < |flows| ==> input == flows[idx]
    {
      ok := true;
      if idx < |flows| {
        input := flows[idx];
        ok := input.src in hosts && input.dst in hosts;
      }
    }

    /** The flow at idx is refused: it is not between hosts, or it is due before now. */
    ghost predicate Refused()
      reads this
    {
      idx < |flows| && (!BetweenHosts(hosts, flows[idx]) || flows[idx].start < now)
    }

    /**
     One event: starts every flow that is due now, then schedules itself for the next one; not ok
     when that one is not between hosts, or was due before now, which the simulator refuses too.
     */
    method ScheduleFlowInputs() returns (ok: bool)
      requires OnTrack() && idx < |flows| && input.start == now
      modifies this
      ensures Started() && old(idx) < idx && now == old(now)
      ensures forall k :: old(idx) <= k < idx ==> flows[k].start == now
      ensures ok ==> OnTrack() && (idx == |flows| || now < flows[idx].start)
      ensures ok <==> !Refused()
      ensures ok ==> scheduled == if idx < |flows| then Some(flows[idx].start) else None
    {
      hide Due, PortAfter, BetweenHosts;
      while idx < |flows| && input.start == now
        invariant OnTrack() && old(idx) <= idx && now == old(now)
        invariant old(idx) == idx ==> idx < |flows| && input.start == now
        invariant forall k :: old(idx) <= k < idx ==> flows[k].start == now
        decreases |flows| - idx
      {
        ok := StartFlow();
        if !ok {
          return;
        }
      }
      ok, scheduled := true, None;
      if idx < |flows| {
        if input.start < now {
          return false;
        }
        scheduled := Some(now + (input.start - now));
      }
    }

    /** The body of the loop: one flow started, the next one read. */
    method StartFlow() returns (ok: bool)
      requires OnTrack() && idx < |flows| && input.start == now
      modifies this`idx, this`input, this`ports, this`launched
      ensures Started() && idx == old(idx) + 1
      ensures ok ==> OnTrack()
      ensures !ok ==> idx < |flows| && !BetweenHosts(hosts, flows[idx])
    {
      hide PortAfter;
      NextPorts(flows, idx);
      var port := Port(input.src, input.dst);
      ports := ports[(input.src, input.dst) := (port + 1) % PORTS];
      launched := launched + [Launch(input, now, port)];
      idx := idx + 1;
      ok := ReadFlowInput();
    }

    /**
     The whole chain, from the first read. It runs to its end exactly if all flows are between hosts and
     sorted by start time, else up to the first one that is not between hosts or is due before the one in
     front of it; what it starts are the flows in file order, each once and when due.
     */
    method RunChain() returns (ok: bool)
      requires AtStart()
      modifies this
      ensures ok <==> SortedByStart(flows) && AllBetweenHosts(hosts, flows)
      ensures forall k :: 0 <= k < |launched| ==> k < |flows| && launched[k] == Due(flows, k)
      ensures ok ==> |launched| == |flows| && scheduled == None
      ensures !ok ==>
        && |launched| < |flows|
        && SortedByStart(flows[..|launched|]) && AllBetweenHosts(hosts, flows[..|launched|])
        && (!BetweenHosts(hosts, flows[|launched|])
            || (0 < |launched| && flows[|launched|].start < flows[|launched| - 1].start))
    {
      hide Due, PortAfter, BetweenHosts;
      NextPorts(flows, 0);
      ok := true;
      if 0 < |flows| {
        ok := ReadFlowInput();
        if !ok {
          return;
        }
        scheduled := Some(now + (input.start - now));
      }
      while scheduled.Some?
        invariant OnTrack() && ok
        invariant scheduled == if idx < |flows| then Some(flows[idx].start) else None
        invariant forall i, j :: 0 <= i < j <= idx && j < |flows| ==> flows[i].start <= flows[j].start
        decreases |flows| - idx
      {
        now := scheduled.value;
        ok := ScheduleFlowInputs();
        if !ok {
          return;
        }
      }
    }
  }
}
