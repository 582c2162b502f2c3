# ns-3 RDMA simulator: verified models of its algorithms and protocols

The repository is an ns-3.33 tree with an RDMA simulation on top. Seven parts of it hold a real
algorithm or protocol; each is modelled here in Dafny with the branches, constants and error cases of
its code, and what that code is for is proved about the model.

| part | modules |
|---|---|
| dependency sorts and cycle enumeration (`topsort.py`) | `Digraph`, `Dependencies`, `Topsort`, `TopsortLevels`, `Rotation`, `FindCycles` |
| route computation and link failure (`sim-cc.cc`) | `Network`, `Bfs`, `Forwarding`, `RouteTables`, `Routing` |
| flow start-up event chain (`sim-cc.cc`) | `FlowSchedule` |
| configuration paths over the type graph (`print-introspected-doxygen.cc`) | `TypePaths`, `TypeTwins`, `TypeGather` |
| test-runner job protocol (`test.py`) | `JobProtocol`, `JobResults`, `JobInterrupts` |
| mini shell (`shellcmd.py`) | `ShellSyntax`, `ShellGrammar`, `ShellMeaning`, `ShellLaunches`, `ShellErrors`, `ShellPosix`, `Shell` |
| unified-diff parser and printer (`check-style.py`) | `ChunkHeader`, `PatchText`, `PatchBackwards`, `PatchFile`, `PatchSet` |
| binary counting, Gray code, permutations (`rad_util.py`) | `Bits`, `Permutations` |

`Collections` is shared vocabulary. Code that changes state in place is a class or a method with loops,
proved against a specification function or predicate; what that specification means is then proved
separately. Where a source loop is long, its body is a method of its own.

## What is proved, in short

- **Cycles.** `FindCycles` ends on every finite graph and lists every simple cycle once up to rotation,
  although starts already visited are skipped: a start once explored covers every cycle it can reach
  (`ExploredCovers`), and so does whatever was visited from it (`CoveredFrom`). It ends because a popped
  path outweighs all the longer paths pushed for it (`Expand`).
- **Sorting.** Both sorts fail on exactly the cyclic inputs, with exactly the items on or after a cycle
  left over. The level of an item is the length of its longest chain of predecessors.
- **Routes.** The search from a host finds the least hop counts over paths that pass through switches only.
  The walks along next hops are exactly the least-hop paths. One single least-hop path accounts for the
  delay, transmit time and bandwidth together, in 64-bit arithmetic, link by link (`RecordedFigures`). A
  table lists the interfaces at the node's own end, in the order the search visits the hops (`TableEntries`).
- **Link failure.** `Simulator.Installed` holds after set-up and is kept by every `TakeDownLink`: routes,
  tables and the figures of connected pairs are those of a computation from nothing on the links left. The
  routes depend only on which links were named, and distances never shrink. A disconnected pair keeps the
  figure of the last network that connected it.
- **Type paths.** The gathered output is one record for each simple path from the root, in depth-first
  order, with both stacks restored; which edges a type has, and in what order, is stated edge by edge. A
  record is made twice exactly if the walk meets two equal edges, as it does in this program.
- **Job protocol.** In every interleaving of main thread, workers and interrupt each job is in exactly one
  place, every run is bounded, and the only way to wait forever is to have jobs and no worker. On return,
  status 0 means that every job passed or was skipped, each passed job having really been run. An interrupt
  lets jobs already begun go on and no other: the jobs given back as breaks are exactly those not begun when
  it came, none of them is run, and if there is one the status is not 0 (`JobInterrupts.InterruptExactly`).
- **Shell.** The parser accepts exactly the sentences of a grammar, its results are exactly the well-formed
  lines, and running one refines the recursive meaning "group op (rest)", opening and closing exactly the
  files it redirects to and from. The k-th process is the one for the k-th command, in the directory that all
  `cd`s in front of it lead to and with its input from the pipe, its file or nowhere
  (`ShellLaunches.ProcessAt`). Exactly which lines can raise an exception, and exactly which have the
  left-associative meaning, is proved for all lines.
- **Patches.** Parsing what was written gives the same patch set back if and only if no removed line's text
  starts with `-- ` and no added line's text starts with `++ `. Whatever was parsed meets that condition,
  and exactly which files are parsed is a matter of the order of their kinds of lines. What any file parses to
  is what an independent reading from its last line up to its first gives (`PatchBackwards.ParsesBackwards`).
- **Counting.** The ripple-carry list is all numbers of a width in order; the insertion recursion lists all
  orderings, n! of them.

## Where the code and its own words differ

The model follows the code.

- `topsort.py:109` says that everything left over has a child. What each leftover item has is a leftover
  *parent* (`Dependencies.LeftoverExactly`); an item after a cycle may have no child
  (`Dependencies.LeftoverWithoutChild`). The comment is right exactly if every leftover item leads on to a
  cycle again (`Dependencies.ChildrenExactly`).
- `Uniquefy` (`print-introspected-doxygen.cc:394-400`) says that it changes its container in place, but it
  takes it by value, so `Gather` leaves the output unsorted and not deduplicated. Duplicates
  are real: the aggregation of `ns3::Icmpv4L4Protocol` to `ns3::Node` is recorded at line 537 and again at
  line 539, so all records behind it are made twice (`TypeTwins.ProgramRecordsTwice`). They arise exactly
  from equal edges, at the root or below it (`TypeTwins.RecordsNoDup`).
- `shellcmd.py` stops the whole line at the first short circuit, so `a && b || c` means `a && (b || c)`,
  unlike the left-associative AND-OR list of section 2.9.3 of the POSIX.1-2017 Shell Command Language
  (`ShellPosix.StopsEarly`). It also carries a pipe past a `cd`: `a | cd x && b` pipes `a` into `b`
  (`ShellPosix.PipesPastChdir`). The two readings agree for all exit codes exactly on the lines in which no
  `cd` ends the line, lacks a directory or stands behind a pipe, and which do not, from their first command
  on, use both operators (`ShellPosix.AgreesExactly`); an `&&` behind a later `cd` counts as one.
- A redirection sign that ends a line is dropped silently: `a >` parses like `a`. A word `|` right behind
  `cd` is a directory name.
- `run` pops an operator after every `cd` it comes to and then joins its directory. So a run that reaches a
  `cd` at the end of the line raises an `IndexError`, and one that reaches a `cd` without a directory in front
  of `&&` a `TypeError`; a run stopped before does not. Every run gives a status exactly if the line neither
  ends in a `cd` nor has a `cd` without a directory (`ShellErrors.RaisesExactly`).
- `binary_range(0)` is the empty list, not the list of the one empty string. `int2bin` with width 0 never
  raises and cuts nothing off, because a slice bound of -0 is 0.
- `is_rotated` raises an `IndexError` on two empty sequences (`None` in the model); `find_cycles` never
  calls it so.
- The flow chain needs its file sorted by start time and between hosts: it runs to its end exactly on such
  files, and otherwise stops at an assertion in front of the first flow that is not.
- `test.py` with no worker and at least one job waits forever.

## Model

| member | source | states |
|---|---|---|
| FindCycles.FindCycles | ns-3.33/bindings/python/topsort.py:235-385 | Every list is a repeat-free closed walk, no two are rotations of each other, and every simple cycle of the graph is a rotation of a listed one; it ends on every finite graph. |
| FindCycles.SearchFrom | ns-3.33/bindings/python/topsort.py:351-385 | One start's stack search keeps the listed cycles sound and distinct and leaves every cycle reachable from the start, or from any node it marked visited, listed. |
| FindCycles.Expand | ns-3.33/bindings/python/topsort.py:355-385 | Expanding a popped path keeps every unexplored simple path behind some prefix on the stack, marks only nodes reachable from the start, and strictly lowers the weight of the stack. |
| FindCycles.TryChild | ns-3.33/bindings/python/topsort.py:362-385 | A child on the path yields its cycle unless a rotation is already listed; any other child extends the path onto the stack and is marked visited. |
| FindCycles.IsDuplicate | ns-3.33/bindings/python/topsort.py:371-376 | The duplicate scan is true exactly if some listed cycle is a rotation of the new one. |
| FindCycles.ExploredCovers | ns-3.33/bindings/python/topsort.py:346-385 | If at every simple path from a start the closing cycles are listed, then every simple cycle reachable from that start is listed. |
| FindCycles.CoveredFrom | ns-3.33/bindings/python/topsort.py:346-350 | Why visited nodes may be skipped: what a covered start reaches is covered too. |
| FindCycles.PathAroundCycle | ns-3.33/bindings/python/topsort.py:362-369 | From a start that reaches a cycle there is a simple path that meets the cycle only at its tail, and whose tail goes once around it. |
| Rotation.IsRotated | ns-3.33/bindings/python/rad_util.py:735-775 | True exactly for rotations; fails exactly on two empty sequences. |
| Rotation.RotationTransitive | ns-3.33/bindings/python/rad_util.py:735-775 | Being a rotation is transitive, which the search for duplicates relies on. |
| Rotation.RotationSymmetric | ns-3.33/bindings/python/rad_util.py:735-775 | Being a rotation is symmetric, so it does not matter which of two cycles is found first. |
| Topsort.Topsort | ns-3.33/bindings/python/topsort.py:61-112 | Returns a list exactly if the pairs are acyclic: duplicate-free, of all elements, each parent before its child; otherwise what `num_parents` still holds is exactly the elements on or after a cycle, with their counts of unlisted parents, and `children` the untouched child lists. |
| Topsort.Process | ns-3.33/bindings/python/topsort.py:97-106 | Processing one listed parent keeps the list in order and makes the counts right for one more finished element, although the list grows meanwhile; no decrement meets a deleted key. |
| Topsort.KnockDown | ns-3.33/bindings/python/topsort.py:101-103 | A child's decrement keeps every count right for the decrements still to come and lists the child exactly when its last parent is done. |
| Topsort.ItemsWithoutParents | ns-3.33/bindings/python/topsort.py:92-93 | The parentless elements, each once. |
| Topsort.WhatIsLeft | ns-3.33/bindings/python/topsort.py:108-112 | The elements left after the loop are exactly those on or after a cycle; none are left exactly if there is no cycle. |
| Dependencies.CountParents | ns-3.33/bindings/python/topsort.py:77-90 | Every element gets its number of parent pairs, repetitions counted, and its children in pair order. |
| Dependencies.FinishItem | ns-3.33/bindings/python/topsort.py:98-106 | After deleting a parent, each other count is too high by exactly its pending decrements. |
| Dependencies.LeftoverExactly | ns-3.33/bindings/python/topsort.py:108-111 | If the rest each keep a pending parent and the placed ones are graded along the edges, the rest are exactly the elements on or after a cycle. |
| Dependencies.LeftoverWithoutChild | ns-3.33/bindings/python/topsort.py:108-111 | Of the pairs (1, 1) and (1, 2), 2 is left over and has no child. |
| Dependencies.ChildrenExactly | ns-3.33/bindings/python/topsort.py:108-111 | Every item left over has a child exactly if every one of them leads on to a cycle. |
| Dependencies.LeftoverIsCyclic | ns-3.33/bindings/python/topsort.py:108-111 | Where every leftover has a leftover parent, each leftover lies on or after a cycle. |
| Dependencies.GradedIsAcyclic | ns-3.33/bindings/python/topsort.py:95-106 | An element placed after all its ancestors is on or after no cycle. |
| TopsortLevels.TopsortLevels | ns-3.33/bindings/python/topsort.py:114-172 | Disjoint nonempty levels of exactly the elements not on or after a cycle, each at the length of its longest chain of predecessors; ends with a cycle error exactly if `topsort` does, with exactly the cyclic part left. |
| TopsortLevels.TopsortLevelsCore | ns-3.33/bindings/python/topsort.py:174-232 | The same from given counts and child lists, which may mention isolated items. |
| TopsortLevels.AddLevel | ns-3.33/bindings/python/topsort.py:210-224 | One round keeps levels layered, nothing left that was free a level ago, and the counts right; it places something new. |
| TopsortLevels.ReleaseLevel | ns-3.33/bindings/python/topsort.py:217-224 | Releasing a whole level leaves the counts right without it; no decrement meets a deleted key, because no child of a level item was placed. |
| TopsortLevels.LevelIsLongestChain | ns-3.33/bindings/python/topsort.py:203-225 | In layered levels the level number is the length of the longest chain of predecessors. |
| TopsortLevels.ParentInEarlierLevel | ns-3.33/bindings/python/topsort.py:203-225 | No edge lies inside a level or points back: a parent's longest chain is shorter than its child's. |
| Bfs.DistanceExact | ns-3.33/scratch/sim-cc.cc:223-261 | A node has a distance exactly if an up-link path through switches only leads to it, and then it is the least hop count of all such paths. |
| Bfs.MetricsWitness | ns-3.33/scratch/sim-cc.cc:232-255 | One single least-hop path has the recorded delay as its delay sum, the recorded transmit time as its sum of floor-divided times, both modulo 2^64, and the recorded bandwidth as its minimum. |
| Bfs.RecordedFigures | ns-3.33/scratch/sim-cc.cc:232-255 | Along one least-hop path, written out link by link: the delay is the sum of the links' delays, the transmit time the sum of the whole nanoseconds of (8 * 10^9 * payload mod 2^64) over each link's bandwidth, both sums modulo 2^64, the bandwidth the least of the links'. |
| Network.TxTimeExact | ns-3.33/scratch/sim-cc.cc:250 | The transmit time of a link is the largest whole number of nanoseconds whose product with the bandwidth is within 8 * 10^9 times the payload, taken modulo 2^64. |
| Bfs.QueueSpread | ns-3.33/scratch/sim-cc.cc:238-261 | At every step the distances of the waiting entries do not fall along the queue and differ by at most one. |
| Bfs.RouteBound | ns-3.33/scratch/sim-cc.cc:238-261 | Every path through switches reaches only nodes with a distance, and is no shorter than it. |
| Bfs.AfterInv | ns-3.33/scratch/sim-cc.cc:223-261 | The search invariant (queue, spread, witnesses, scanned links, next hops) holds after any number of queue entries. |
| Bfs.TryInv | ns-3.33/scratch/sim-cc.cc:241-260 | One neighbour tried keeps the search invariant. |
| Bfs.QueueDrained | ns-3.33/scratch/sim-cc.cc:238-261 | The loop that stops at the end of the queue has reached the finished search, which no number of further steps changes. |
| Forwarding.ForwardingIsLeastHops | ns-3.33/scratch/sim-cc.cc:257-260 | The walks along next hops that arrive at the host are, reversed, exactly the least-hop paths through switches: none missing, none longer. |
| Forwarding.NextHopExact | ns-3.33/scratch/sim-cc.cc:257-260 | The next hops of a node are its forwarding neighbours one hop nearer, each listed once. |
| Forwarding.SearchOrder | ns-3.33/scratch/sim-cc.cc:238-261 | At every moment the next hops found for a node are listed in the order in which the search visits them. |
| Forwarding.NeverStuck | ns-3.33/scratch/sim-cc.cc:257-260 | Every reached node other than the host has a next hop. |
| Forwarding.ForwardDescends | ns-3.33/scratch/sim-cc.cc:257-260 | Every forwarding step lowers the distance by exactly one, so there is no loop. |
| Forwarding.RouteDistances | ns-3.33/scratch/sim-cc.cc:238-261 | On a least-hop path the i-th node is i hops from the host, and every node before the last forwards. |
| Routing.Simulator.CalculateRoute | ns-3.33/scratch/sim-cc.cc:223-268 | Appends just the next hops of the finished search towards this host and overwrites just this host's entries of the delay, transmit-time and bandwidth tables. |
| Routing.Simulator.VisitNode | ns-3.33/scratch/sim-cc.cc:239-260 | Visiting a queue entry refines the scan of the search specification and records its next hops in the global table. |
| Routing.Simulator.CalculateRoutes | ns-3.33/scratch/sim-cc.cc:270-276 | Does so for every host and no switch, in container order. |
| Routing.Simulator.SetRoutingEntries | ns-3.33/scratch/sim-cc.cc:278-301 | Every node's table gains, for each destination, the interfaces of its next hops in order, whatever order the map is walked in. |
| Routing.Simulator.SetUpRouting | ns-3.33/scratch/sim-cc.cc:908-910 | After set-up, routes, tables and recorded figures are current (`Installed`). |
| Routing.Simulator.TakeDownLink | ns-3.33/scratch/sim-cc.cc:304-321 | Keeps routes, tables and figures current on the links left; a link that is down or unknown changes none of them; the pair tables are refreshed for the pairs still connected and for no other. |
| Routing.Simulator.ClearTables | ns-3.33/scratch/sim-cc.cc:312-318 | Clearing the nodes of the container leaves no table entry at all. |
| RouteTables.FreshHopsExact | ns-3.33/scratch/sim-cc.cc:257-276 | Over all pairs, a node is an installed next hop exactly if it is a forwarding neighbour whose least hop count to the host is one less; none is listed twice. |
| RouteTables.TableEntries | ns-3.33/scratch/sim-cc.cc:278-301 | A node's table towards a host holds, one by one and in search order, the interface numbers at its own end of the live links to its next hops; a pair without next hops has no entry. |
| RouteTables.RefreshedPair | ns-3.33/scratch/sim-cc.cc:262-276 | Recomputing gives a connected pair its fresh figure and leaves a disconnected pair's old entry, or lack of one, as it was. |
| RouteTables.LastFigure | ns-3.33/scratch/sim-cc.cc:262-321 | After any sequence of calls a pair's entry is its figure in the last network of the sequence that connected it. |
| RouteTables.NeverConnected | ns-3.33/scratch/sim-cc.cc:262-321 | A pair the first network does not connect is never connected, and keeps whatever entry it had. |
| RouteTables.AllPairsCurrent | ns-3.33/scratch/sim-cc.cc:262-276 | After recomputing, every connected pair has the figure of a fresh search, whatever was there before. |
| RouteTables.TakenDownLinks | ns-3.33/scratch/sim-cc.cc:304-309 | Exactly the two directions of the named link go down; every other link, all interface numbers and the two-way property stay. |
| RouteTables.AllTakenDownLinks | ns-3.33/scratch/sim-cc.cc:304-309 | After any sequence of calls the live links are exactly those never named. |
| RouteTables.OnlyNamedLinksMatter | ns-3.33/scratch/sim-cc.cc:304-321 | Two sequences that name the same links, from either end, in any order and with repetitions, lead to the same routes and tables. |
| RouteTables.DistancesNeverShrink | ns-3.33/scratch/sim-cc.cc:304-321 | After any sequence of calls no hop distance is smaller and nothing is newly connected. |
| RouteTables.FewerLinks | ns-3.33/scratch/sim-cc.cc:223-261 | A search over fewer up links reaches no more and no nearer. |
| RouteTables.AfterSame | ns-3.33/scratch/sim-cc.cc:238-261 | The search depends on the live links alone. |
| RouteTables.TablesOfNodes | ns-3.33/scratch/sim-cc.cc:278-321 | Only nodes of the container ever have table entries, so clearing them clears everything. |
| FlowSchedule.Simulation.RunChain | ns-3.33/scratch/sim-cc.cc:997-1002 | The chain ends having started every flow exactly if all are between hosts and sorted by start time; else it stops in front of the first flow that is not between hosts or is due too early. What it starts are the flows in file order, each once, at its own tick, the k-th flow (from 0) of a host pair on port (10000 + k) mod 65536. |
| FlowSchedule.DueExactly | ns-3.33/scratch/sim-cc.cc:135-145 | What is due for the k-th flow is that flow, at its start time, on port 10000 plus the number of earlier flows with the same ends, modulo 65536. |
| FlowSchedule.Simulation.ScheduleFlowInputs | ns-3.33/scratch/sim-cc.cc:135-153 | One event starts exactly the flows due now, at least one, and schedules the next event for the next flow's time; it fails exactly if that flow is refused. |
| FlowSchedule.Simulation.ReadFlowInput | ns-3.33/scratch/sim-cc.cc:129-134 | Reads the flow at the index if there is one, and fails exactly if that one is not between hosts. |
| TypeGather.StaticInformation.DoGather | ns-3.33/utils/print-introspected-doxygen.cc:420-503 | Ends on every finite type graph, restores both stacks, and appends one record for each listed simple path, in depth-first order. |
| TypeGather.StaticInformation.Gather | ns-3.33/utils/print-introspected-doxygen.cc:411-417 | From empty stacks, appends exactly the records of the simple paths from the root, neither sorted nor deduplicated. |
| TypeGather.StaticInformation.Follow | ns-3.33/utils/print-introspected-doxygen.cc:449-453 | Pushing an edge, recursing and popping adds just the records behind that edge and restores both stacks. |
| TypeGather.StaticInformation.HasAlreadyBeenProcessed | ns-3.33/utils/print-introspected-doxygen.cc:349-361 | True exactly for the ancestors on the stack. |
| TypeGather.StaticInformation.RecordOutput | ns-3.33/utils/print-introspected-doxygen.cc:328-346 | Appends the type with the path of every name on the stack, each after a slash. |
| TypeGather.RecordsBehindEdge | ns-3.33/utils/print-introspected-doxygen.cc:449-453 | Records made below an edge complete those of the paths through the edges before it. |
| TypePaths.TrailsExact | ns-3.33/utils/print-introspected-doxygen.cc:420-503 | The walk's paths are exactly those that meet no type twice and no type already on the stack. |
| TypePaths.TrailsNoDup | ns-3.33/utils/print-introspected-doxygen.cc:420-503 | No path is listed twice. |
| TypePaths.TrailsDepthFirst | ns-3.33/utils/print-introspected-doxygen.cc:420-503 | The paths are listed in depth-first order: each before those that go on from it, and the others by the first edge at which they part. |
| TypePaths.AttributeEdgeAt | ns-3.33/utils/print-introspected-doxygen.cc:429-468 | Attribute by attribute the edges grow by the pointee under the attribute's name unless it is the object type, by the item under the name with a container suffix, or by nothing; these edges come first. |
| TypePaths.ChildEdgeAt | ns-3.33/utils/print-introspected-doxygen.cc:469-481 | Behind them, type by registered type, comes an edge to each child, named after it behind a dollar sign. |
| TypePaths.AggregateEdgeAt | ns-3.33/utils/print-introspected-doxygen.cc:482-502 | Behind these, aggregation by aggregation, comes an edge to the other type of each that has this one. |
| TypeTwins.EdgeOrigin | ns-3.33/utils/print-introspected-doxygen.cc:429-502 | An edge leaves a type exactly if an attribute makes it, or it is named after its target and that is a child or is aggregated, either way round. |
| TypeTwins.RecordsNoDup | ns-3.33/utils/print-introspected-doxygen.cc:411-417 | Where the names of a type's edges give the edges, the records gathered from a root are all different exactly if no simple path goes on, and stays simple, by two equal edges. |
| TypeTwins.ProperNamesGiveEdges | ns-3.33/utils/print-introspected-doxygen.cc:429-500 | Different type names, different attribute names and no slashes or leading dollar signs in them make that so, although container names get a suffix with a slash. |
| TypeTwins.TwinRecords | ns-3.33/utils/print-introspected-doxygen.cc:411-417 | Two equal edges at the end of any simple path make one record twice, whatever the names. |
| TypeTwins.AggregatedTwice | ns-3.33/utils/print-introspected-doxygen.cc:478-502 | An aggregation recorded twice does so on every simple path to its first type that has not met the second. |
| TypeTwins.ProgramRecordsTwice | ns-3.33/utils/print-introspected-doxygen.cc:530-563 | With properly named types, gathering from the list of nodes records the protocol aggregated twice to a node twice. |
| TypeTwins.SameSpelling | ns-3.33/utils/print-introspected-doxygen.cc:328-346 | Two different simple paths with the same recorded string part at two equal edges. |
| TypePaths.SimpleStep | ns-3.33/utils/print-introspected-doxygen.cc:424-427 | A path is simple exactly if its first type is unblocked and the rest is simple with that type blocked too. |
| JobProtocol.StepInv | ns-3.33/test.py:978-1046 | Every step of dispatcher, worker, collector or interrupt keeps each job in exactly one place, the break jobs behind all work, and one break job for each worker queued or consumed. |
| JobProtocol.RunInv | ns-3.33/test.py:978-1046 | Every state of every interleaving satisfies that invariant. |
| JobProtocol.RunsAreBounded | ns-3.33/test.py:978-1046 | No run takes more than six steps for each job and each worker, and five more. |
| JobProtocol.StuckExactly | ns-3.33/test.py:1718-1719 | Short of the end, something other than an interrupt can always happen, unless the collector waits for jobs and there is no worker. |
| JobProtocol.MaximalRunReturns | ns-3.33/test.py:1711-1864 | A run that cannot go on has returned exactly if there was a worker or no job. |
| JobResults.RunGenuine | ns-3.33/test.py:991-1046 | In every reachable state jobs keep their identity, become break jobs only after an interrupt, and are given back as finished only after having been run. |
| JobResults.WhenReturned | ns-3.33/test.py:1711-1951 | On return each dispatched job was collected exactly once, both queues are empty, every worker has exited, a job neither skipped nor interrupted was run with the code it carries, and the status is 0 exactly if every job passed or was skipped and none was interrupted. |
| JobInterrupts.InterruptExactly | ns-3.33/test.py:987-995 | In a run that was interrupted and returned, the jobs given back as breaks are exactly those no worker had begun when the interrupt came; only jobs begun by then were ever run; if some job was not, the status is not 0. |
| JobInterrupts.NothingBegins | ns-3.33/test.py:991-995 | From an interrupt on, a worker that runs a job has been running it since, and only jobs running at the interrupt are finished later. |
| JobInterrupts.NeverRun | ns-3.33/test.py:991-995 | A job that was not running, returning or returned at the interrupt is never run, and only comes back as a break. |
| JobInterrupts.NotInterrupted | ns-3.33/test.py:991-1046 | A job begun before the interrupt waits nowhere any more and is never marked as a break. |
| JobInterrupts.StepBeginsNothing | ns-3.33/test.py:991-995 | After an interrupt a step begins no job and finishes only one that was running, and the interrupt stays. |
| JobResults.FetchedInOrder | ns-3.33/test.py:978-987 | In every state what is still to be fetched is the last part of the jobs, in their order. |
| JobResults.CollectedInOrder | ns-3.33/test.py:991-1046 | What was put and what was collected only ever grow at the end: results are collected in the order they were put. |
| JobResults.TallyMeaning | ns-3.33/test.py:1711-1752 | Passed plus skipped equals the total exactly if every single job succeeded. |
| JobResults.TallyExact | ns-3.33/test.py:1718-1752 | Each tally is the number of collected jobs, not given back as breaks, with that verdict: skipped, or return code 0, 1, 2 or any other. |
| JobResults.TallyPartition | ns-3.33/test.py:1718-1752 | Every collected job is in exactly one tally, interrupted ones aside. |
| JobResults.TallyOfTrouble | ns-3.33/test.py:1718-1752 | The tallies of failures, memory errors and crashes are zero exactly if no counted job has such a code. |
| JobProtocol.StepShortens | ns-3.33/test.py:978-1046 | Every step uses up some of a bounded supply. |
| ShellGrammar.ParsesSentences | ns-3.33/waf-tools/shellcmd.py:121-201 | A token list parses to a pipeline exactly if it is a sentence of the grammar that stands for that pipeline: assignments, a name, words and at most one redirection each of input, output and errors in any order, or a `cd`, joined by operators. |
| ShellGrammar.ParsesExactly | ns-3.33/waf-tools/shellcmd.py:121-201 | A pipeline is the parse of some tokens exactly if it is a well-formed line. |
| ShellGrammar.SentenceParses | ns-3.33/waf-tools/shellcmd.py:136-201 | Every sentence parses, behind anything already committed, to its pipeline. |
| ShellGrammar.BeginSentence | ns-3.33/waf-tools/shellcmd.py:136-201 | Whatever parses from the start of a command, some assignments having been read, completes a sentence. |
| ShellGrammar.CommandSentence | ns-3.33/waf-tools/shellcmd.py:152-177 | Whatever parses behind a command's name and items completes a sentence; a last redirection sign without a file is dropped. |
| ShellGrammar.MayAddExactly | ns-3.33/waf-tools/shellcmd.py:158-199 | The assertions on stdin, stdout and stderr hold exactly if no item before redirects the same. |
| ShellGrammar.SentenceIsLine | ns-3.33/waf-tools/shellcmd.py:121-201 | The pipeline of a sentence is a well-formed line. |
| ShellGrammar.LineSpelt | ns-3.33/waf-tools/shellcmd.py:121-201 | Every well-formed line is the pipeline of a sentence. |
| ShellSyntax.LinePositions | ns-3.33/waf-tools/shellcmd.py:121-201 | A well-formed line has odd length and alternates commands and operators; stdout is PIPE exactly before a pipe, and a `cd` stands before `&&` or last. |
| ShellSyntax.EnvAssignmentExactly | ns-3.33/waf-tools/shellcmd.py:24 | A token is an assignment exactly if it is a name of letters, digits and underscores, an equals sign and a value without white space, with at most one newline behind. |
| Shell.Pipeline.Parse | ns-3.33/waf-tools/shellcmd.py:121-201 | The stateful parser gives the functional one's result, or fails exactly where an assertion would; a result is a well-formed line. |
| Shell.Pipeline.TakeToken | ns-3.33/waf-tools/shellcmd.py:137-199 | One token changes the parser's fields as the token function says, and fails with it. |
| Shell.Pipeline.CommitCommand | ns-3.33/waf-tools/shellcmd.py:101-104 | Fails exactly without a current command; else moves it to the end of the pipeline. |
| Shell.Pipeline.Run | ns-3.33/waf-tools/shellcmd.py:214-346 | Running a parsed line starts the processes its meaning says, in order, directory and connection, and gives its outcome; it opens exactly the files these redirect to and from, the null device aside; when it returns a status each of them has been closed exactly once, in order of opening. |
| Shell.Start | ns-3.33/waf-tools/shellcmd.py:242-296 | Starts one process as meant, having opened exactly its input, output and error files, in that order, and remembered each to be closed. |
| Shell.FilesOfPush | ns-3.33/waf-tools/shellcmd.py:242-273 | A process opens, in this order, its input file if no pipe feeds it, its output file and its error file, `NUL:` and `/dev/null` aside. |
| Shell.ExecPipedCommands | ns-3.33/waf-tools/shellcmd.py:203-212 | A group's status is its last process's, whatever the others returned. |
| Shell.OpenOutFile | ns-3.33/waf-tools/shellcmd.py:46-50 | Opens the named file unless it is the null device, and either way remembers a handle. |
| ShellMeaning.MeaningStep | ns-3.33/waf-tools/shellcmd.py:225-346 | The meaning by whole groups unfolds node by node: a pipe carries on, an and-operator or or-operator stops the whole rest or starts afresh, `cd` moves all later commands. |
| ShellMeaning.LaunchesArePrefix | ns-3.33/waf-tools/shellcmd.py:225-346 | What runs is a first part of the line's commands, in their order: nothing is reordered or left out between. |
| ShellLaunches.ProcessAt | ns-3.33/waf-tools/shellcmd.py:222-296 | The k-th process that a run starts is the one for the k-th command of the line, field by field: that command, the directory all `cd`s before it lead to (an absolute one replaces, any other goes down behind one slash; none at all for `.`), and input from the pipe before it, else its file, else inherited. |
| ShellLaunches.LaunchAt | ns-3.33/waf-tools/shellcmd.py:222-296 | The same for all the line's commands, run or not. |
| ShellLaunches.LaunchCount | ns-3.33/waf-tools/shellcmd.py:222-296 | There are as many as the line has commands. |
| ShellErrors.RaisesExactly | ns-3.33/waf-tools/shellcmd.py:222-346 | Some exit codes make a line raise `TypeError` exactly if a `cd` before its last node has no directory, `IndexError` exactly if no such `cd` is there and it ends in a `cd`; all exit codes give a status exactly if neither is so. |
| ShellErrors.ErrorsOnlyFromChdir | ns-3.33/waf-tools/shellcmd.py:225-231 | A run raises `IndexError` only on a line that ends in a `cd` and joins every directory before, `TypeError` only if some `cd` before the end has no directory, and nothing else. |
| ShellErrors.GoingOn | ns-3.33/waf-tools/shellcmd.py:222-346 | With the exit codes that let every operator go on, a run comes to the first `cd` that raises, or gives a status. |
| ShellErrors.FinalCdRaises | ns-3.33/waf-tools/shellcmd.py:225-228 | `cd x` parses, and raises `IndexError`. |
| ShellErrors.BareCdRaises | ns-3.33/waf-tools/shellcmd.py:225-228 | `cd && a` parses, and raises `TypeError`. |
| ShellErrors.FinalCdNotReached | ns-3.33/waf-tools/shellcmd.py:330-341 | `a && cd x` gives the status of `a` if that is not 0, and raises only else. |
| ShellPosix.AgreesExactly | ns-3.33/waf-tools/shellcmd.py:222-346 | Any parsed line has its left-associative meaning for all exit codes exactly if no `cd` ends it, lacks a directory or stands behind a pipe and, from its first command on, not both operators occur. |
| ShellPosix.PipesPastChdir | ns-3.33/waf-tools/shellcmd.py:225-244 | With a `cd` between a pipe and the next command, that command reads from the pipe and runs in `./x`; by the left-associative reading it does neither. |
| ShellPosix.PipedChdirDiffers | ns-3.33/waf-tools/shellcmd.py:222-346 | With exit codes that let every operator go on, a `cd` behind a pipe always makes the two readings start different processes. |
| ShellPosix.StopsEarly | ns-3.33/waf-tools/shellcmd.py:330-341 | When the first of three commands joined by an and-operator and then an or-operator fails, the run ends with its status, where the left-associative reading goes on to run the third. |
| ShellPosix.UnmixedAgrees | ns-3.33/waf-tools/shellcmd.py:307-346 | With one kind of operator, once stopped is stopped for good, so both readings start the same processes and give the same status. |
| ShellPosix.MixedStartsMore | ns-3.33/waf-tools/shellcmd.py:307-346 | With both kinds, a constant exit code at which the first operator stops makes the left-associative reading start strictly more. |
| PatchText.RoundTripExactly | ns-3.33/utils/check-style.py:374-418 | Parsing the written lines of a patch set gives it back exactly if no removed line's text starts with `-- ` and no added line's with `++ `. |
| PatchText.ReadLineText | ns-3.33/utils/check-style.py:219-232 | A written chunk line reads back as itself exactly if it is not such a line; otherwise it is read as no chunk line at all. |
| PatchText.ReadExactly | ns-3.33/utils/check-style.py:374-416 | Exactly which lines are taken for an old name, a new name, a chunk header and each kind of chunk line, the earlier patterns tried first. |
| PatchText.TakeAllSize | ns-3.33/utils/check-style.py:384-417 | The parser puts exactly as many chunk lines into the set as it reads. |
| PatchText.SetRead | ns-3.33/utils/check-style.py:301-372 | Of a written set exactly the unsafe lines are lost to the parser. |
| PatchText.ReadWriteRead | ns-3.33/utils/check-style.py:363-418 | Writing whatever was parsed and parsing it again gives the same patch set, without any condition. |
| PatchText.ParsesInOrder | ns-3.33/utils/check-style.py:374-418 | Parsing succeeds exactly if no line is of no kind, an old file name comes before every new one and every chunk header, and a chunk header before every chunk line. |
| PatchBackwards.ParsesBackwards | ns-3.33/utils/check-style.py:374-418 | A file in order parses to what reading it from its end gives: chunk lines go to the nearest header above them, even in an earlier patch, and the last of several new names counts. |
| PatchBackwards.TakesJoined | ns-3.33/utils/check-style.py:384-417 | From any state of the parser the lines to come are put where reading them backwards says. |
| PatchFile.FileRoundTrip | ns-3.33/utils/check-style.py:363-418 | The same down to the characters of one file, for newline-free texts. |
| PatchFile.HeaderCountsMatch | ns-3.33/utils/check-style.py:301-310 | The counts in a written chunk header are the numbers of source-side and destination-side lines written under it. |
| ChunkHeader.HeaderRoundTrip | ns-3.33/utils/check-style.py:307-308 | The header pattern reads back the four numbers that were written, whatever follows on the line. |
| ChunkHeader.ReadsForm | ns-3.33/utils/check-style.py:377 | A line is a chunk header with these numbers exactly if it is `@@ -a,b +c,d @@` with numerals of these values, and anything behind. |
| PatchSet.ParsePatchset | ns-3.33/utils/check-style.py:374-418 | The object-building parser raises exactly where the functional one fails; else its fresh objects, none shared, hold that result. |
| PatchSet.TakeLine | ns-3.33/utils/check-style.py:384-417 | One line updates the patch, chunk and set objects as the cursor function says, the current chunk possibly belonging to an earlier patch. |
| PatchSet.PatchChunk.Write | ns-3.33/utils/check-style.py:301-310 | Writes the header with its counts and then the lines, in order. |
| PatchSet.Patch.Write | ns-3.33/utils/check-style.py:363-372 | Writes both names and then every chunk, in order. |
| Bits.Int2BinExact | ns-3.33/bindings/python/rad_util.py:74-105 | For a positive width, raises exactly if the number needs more bits, else gives that many bits with that value. |
| Bits.Bin2IntInverts | ns-3.33/bindings/python/rad_util.py:108-130 | `int2bin` turns the value of a nonempty bit string back into that string. |
| Bits.WidthZero | ns-3.33/bindings/python/rad_util.py:98-104 | Width 0 raises nothing and gives all the bits. |
| Bits.BinaryRange | ns-3.33/bindings/python/rad_util.py:632-660 | For a positive width exactly 2^bits strings, the k-th being `int2bin(k, bits)`; for width 0 none. |
| Bits.Increment | ns-3.33/bindings/python/rad_util.py:649-659 | The ripple carry adds one, or reports overflow in the last toggle exactly when the counter was at its largest. |
| Bits.XorBitwise | ns-3.33/bindings/python/rad_util.py:612-615 | The arithmetic form of `^` is exclusive-or at every bit. |
| Bits.GrayBits | ns-3.33/bindings/python/rad_util.py:612-615 | Each bit of the code tells whether that bit of the number differs from the next higher one. |
| Bits.GrayInjective | ns-3.33/bindings/python/rad_util.py:612-615 | Different numbers have different Gray codes. |
| Bits.GrayNeighbours | ns-3.33/bindings/python/rad_util.py:612-615 | The codes of i and i + 1 differ at exactly one bit. |
| Permutations.Permutations | ns-3.33/bindings/python/rad_util.py:310-326 | The loops produce the insertion listing, in order. |
| Permutations.OrderingsSound | ns-3.33/bindings/python/rad_util.py:310-326 | Every listed ordering is a rearrangement of the input. |
| Permutations.OrderingsComplete | ns-3.33/bindings/python/rad_util.py:310-326 | Every rearrangement of the input is listed. |
| Permutations.OrderingAt | ns-3.33/bindings/python/rad_util.py:310-326 | The order of the listing: number k * n + i has the first item inserted at place i of the k-th ordering of the rest. |
| Permutations.OrderingsCount | ns-3.33/bindings/python/rad_util.py:310-326 | There are n! of them, repeated items or not. |
| Permutations.OrderingsDistinct | ns-3.33/bindings/python/rad_util.py:310-326 | Distinct items give pairwise distinct orderings. |

## Left out

- FindCycles.FindCycles: the cycles are returned as one list; that the generator yields each as soon as it is found is not modelled.
- TopsortLevels.TopsortLevelsCore: the levels are returned as one list with the way the generator ended; laziness is not modelled. Counts and child lists must agree with some list of pairs, as its documentation asks.
- Topsort.Topsort: dictionary order is left open, so the result is any of the orders that Python may give; elements are compared by equality only.
- Routing.Simulator.TakeDownLink: `QbbNetDevice::TakeDown` and `RedistributeQp`, whose code is not part of this model; the empty neighbour map that looking up an unknown node inserts for it.
- Routing.Simulator.SetRoutingEntries: routing tables are keyed by destination node instead of its address; `AddTableEntry` appends an interface and `ClearTable` empties a table.
- Network.WellFormed: links are two-way with positive bandwidth, as the topology loop makes them (sim-cc.cc:803-811); between two nodes there is one link.
- Routing.Simulator.CalculateRoute: pointer order of nodes is a fixed but arbitrary order.
- FlowSchedule.Simulation.ScheduleFlowInputs: times are natural ticks, without the rounding of `Seconds`; installing the RDMA client and the window and RTT it is given. The build is a debug build, in which `Simulator::Schedule` refuses a negative delay (`src/core/model/default-simulator-impl.cc:235`); an optimised build would run the event at its earlier time.
- FlowSchedule.Simulation.ReadFlowInput: reads from a list of flows. In the same debug build the assertion on both ends holds or stops the run; an optimised build would go on, with ports from 0 for a pair that has a switch in it.
- TypePaths.Trails: attribute kinds, the child relation and the aggregation list are a given finite registry; printing, `Get` and `GetNoTypeIds`.
- TypeTwins.RecordsNoDup: assumes that edges of one type with names that agree up to a slash are equal edges, which the type registry's own rules on names give (`TypeTwins.ProperNamesGiveEdges`).
- JobProtocol.Apply: a job's return code is whatever the environment gives; subprocesses, timing, printing and XML. Joining the threads one after the other is one step that waits for all. The standard queues are taken to be atomic and first-in first-out.
- Shell.Pipeline.Run: `open` and `Popen` always succeed; verbose printing, whose messages for `&&` and `||` read a variable not yet assigned; joining paths on Windows. When a `cd` raises, the files opened so far stay open, and nothing is claimed of them.
- Shell.Pipeline.Parse: starts from a list of tokens; `shlex.split` is not modelled. The assertion that no variable assignment precedes `cd` and all others count as failures.
- ShellPosix.AgreesExactly: a `cd` is taken to succeed, as `run` takes it; in the left-associative reading one without a directory stays where it is, since the home directory is not modelled.
- ShellSyntax.EnvAssignment: white space is that of Python 3 strings.
- PatchSet.Patch.Write: the file is a list of lines that grows; characters come in with PatchFile. `apply` does nothing in the source either.
- PatchText.ChunkLine: the objects for chunk lines are values, since the parser sets each once and never changes it.
- `remove_trailing_whitespace_changes`, uncrustify, patch and git calls in `check-style.py`.
- Bits.Int2BinExact: negative numbers; Bin2Int takes strings of `0` and `1` only.
- Permutations.Permutations: that a list of at most one item is returned itself and not copied.
- The rest of `rad_util.py` (float helpers, quantiles, polygons, gcf and lcm), `grid.py`, the remaining set-up and tracing code of `sim-cc.cc`, the binding generators and build scripts.
