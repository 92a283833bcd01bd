# Netlist timing engine: a Dafny model

This project models the graph engine of a small static-timing tool for gate-level
netlists (`netlist.cpp`). A circuit is held as two flat lists: gates and nets, each
identified by its position. Beside them sit:

- a net-name table;
- a gate-type registry that hands out dense type codes;
- counters per net category and per gate type.

The engine has five parts:

- **Builder.** `add_net`, `add_gate`, `add_gate_to_net`, `add_outnet_to_gate`,
  `add_input_edge`, `add_output_edge`, `get_gate_type` and the gate-statement branch of the
  reader. They grow the lists and tables, and they recategorise nets as `HYPEREDGE` or `IO_NET`.
- **Fan-out pass** (`update_fan_out`). Each gate's fan-out grows by the sizes of the reader
  lists of the nets it drives.
- **Topological sort** (`topo_sort`). Kahn's algorithm with a FIFO queue over a private copy
  of the fan-ins.
- **Arrival sweep** (`update_arrival_time`). Forward max-plus over the sorted gates.
- **Slack sweep** (`update_slack`). Backward min over the readers, with unsigned 32-bit
  subtraction.

It also models the unused same-type statistics (`update_same_faninout`) and the two reverse
lookups (`get_gate_name`, `get_edge_name`).

Layout:

- `types.dfy` (module `Types`): u32 arithmetic (wrap-around written out), the `UNSET` mark
  `0xFFFFFFFF`, and the `Gate` and `Net` records.
- `graph.dfy` (module `Graph`):
  - reader walks and successor lists;
  - what a topological order is;
  - the state of Kahn's algorithm and the lemmas that carry it from step to step.
- `tables.dfy` (module `Tables`): the registry, the name table, the counters and the
  fan-in bookkeeping, as predicates on values with the edits that keep them.
- `model.dfy` (module `Model`):
  - the six containers as one value, with one function per builder operation;
  - `Consistent`, the invariant every builder keeps;
  - lemmas stating what each operation changes.
- `timing.dfy` (module `Timing`):
  - the arrival and slack sweeps as functions over the gate list and the order;
  - the per-gate equations the sweeps establish;
  - the bridge from a topological order to those equations.
- `samefan.dfy` (module `SameType`): the flag loops and counts of `update_same_faninout`,
  and what the counts mean.
- `netlist.dfy` (module `Netlist`): class `Circuit`, whose fields are the containers and
  two extra maps (`sameFanout`, `sameFanin`).
  - Each builder method is proved to leave `State()` equal to the matching `Model` function
    of the old state.
  - Each pass is proved against its specification.
  - The loops of the passes sit beside the class as methods over the container values.

Conventions:

- A return of 0 is `Ok` and a return of -1 is `Failed`.
- An `exit(-1)` after an error message about gate `g` is `Aborted(g)`, which ends the pass.
- `a_time`, `r_time` and `slack` start at `UNSET`, the value the checks in the sweeps compare against.

## Model

A row for a builder method also stands for the `Model` function its contract equates it
with: `Model.GateType`, `Model.AddGate`, `Model.AddGateToNet`, `Model.AddOutnetToGate`,
`Model.AddOutputEdge` with `Model.OutputEdge`, `Model.AddInputEdge`, and
`Model.GateStatement` with `Model.GateHead`, `Model.ReadInput` and `Model.ReadInputs`.
Likewise a loop method's row stands for the function it computes: `Graph.FannedOut`,
`Timing.DriversMax` and `Timing.MinRequired`.
The lemmas listed after each method state what those functions do.

| member | source | states |
|---|---|---|
| Netlist.Circuit.GetGateType | netlist.cpp:384-389 | the registry and code after the call are those of `Model.GateType`: the stored code of a known name, or, for a new name, the next code (the registry's old size) |
| Model.GateTypeCodes | netlist.cpp:384-389 | the code is below the registry size and is the name's entry; a known name changes nothing; a new name gets exactly the old size; earlier codes are kept and nothing else changes |
| Tables.Register | netlist.cpp:384-389 | registering keeps codes dense and distinct, and the handed-out code lies below the new size |
| Netlist.Circuit.GateName | netlist.cpp:397-401 | the result is a name registered under the code, or "" when no name is |
| Tables.GateNameInverse | netlist.cpp:397-401 | for a registered name's code, get_gate_name returns that very name |
| Tables.GateNameDefined | netlist.cpp:397-401 | every code below the registry size names a type; every other code yields "" |
| Netlist.KeyFor | netlist.cpp:349-354 | the scan of a name table for a value returns a key with that value, or "" when none has it |
| Netlist.Circuit.EdgeName | netlist.cpp:349-354 | the result is a name bound to the net, or "" when none is |
| Tables.EdgeNameInverse | netlist.cpp:349-354 | for a bound name's net, get_edge_name returns that very name |
| Netlist.Circuit.AddGate | netlist.cpp:236-250 | the state after is `Model.AddGate`: a new gate at index `num_gates` with zero fan-in and fan-out, no nets and unset timing, counted under its type |
| Model.AddGateKeeps | netlist.cpp:236-250 | add_gate preserves `Consistent` |
| Netlist.Circuit.AddNet | netlist.cpp:209-228 | the state after is `Model.AddNet` |
| Model.AddNet | netlist.cpp:209-228 | the returned id is the one now bound to the tag; ids stay in range |
| Model.AddNetEffect | netlist.cpp:209-228 | a known tag returns its id and changes nothing, whatever the type; a new tag appends net `num_nets` of the type with delay 0, no driver and no readers, binds the tag, and raises that category's counter and the total by exactly one; re-adding is a no-op |
| Model.AddNetKeeps | netlist.cpp:209-228 | add_net preserves `Consistent` |
| Model.NetTotalCountsNets | netlist.cpp:209-228 | under `Consistent` the category counters sum to the number of nets (`num_nets`) |
| Netlist.Circuit.AddGateToNet | netlist.cpp:171-185 | the state after is `Model.AddGateToNet` |
| Model.AddGateToNetEffect | netlist.cpp:171-185 | the gate is appended to the net's readers and its fan-in rises by one; the net keeps its id, delay and driver and is HYPEREDGE afterwards exactly when it already had a reader (or was one); on that promotion the old category's counter drops by one and HYPEREDGE's rises by one, and otherwise no counter changes; no other gate or net changes |
| Tables.NetCountsMove | netlist.cpp:174-178 | recategorising one net with a decrement and an increment keeps every counter exact, and the decremented counter was positive |
| Model.AddGateToNetKeeps | netlist.cpp:171-185 | add_gate_to_net preserves `Consistent` (fan-ins still count reader occurrences) |
| Netlist.Circuit.AddOutnetToGate | netlist.cpp:193-199 | the state after is `Model.AddOutnetToGate`: the net is appended to the gate's driven nets |
| Model.AddOutnetToGateKeeps | netlist.cpp:193-199 | add_outnet_to_gate of an existing net preserves `Consistent` |
| Netlist.Circuit.AddOutputEdge | netlist.cpp:258-283 | the state and status after are `Model.AddOutputEdge`: an empty name fails with no change |
| Model.OutputEdgeGate | netlist.cpp:263-264 | the new gate is at index `num_gates`, has the OUTPUT code and fan-in 1, and reads exactly the named net |
| Model.OutputEdgeType | netlist.cpp:263 | "OUTPUT" is registered, and its gate counter rises by one |
| Model.OutputEdgeKnownNet | netlist.cpp:267-277 | for an existing name: the net gets the gate as one more reader, with no HYPEREDGE promotion; an INPUT_NET becomes IO_NET, moving one count from the INPUT_NET counter to the IO_NET counter, and other categories and all counters stay; the net's id, delay and driver and the other nets are unchanged |
| Model.OutputEdgeNewNet | netlist.cpp:267-277 | for a new name: one OUTPUT_NET net is appended, read by the new gate, and counted |
| Model.OutputEdgeKeeps | netlist.cpp:258-283 | the non-empty branch preserves `Consistent` |
| Model.AttachOutputKeeps | netlist.cpp:264-277 | fan-in 1 together with the reader entry and the in-net entry preserves `Consistent` |
| Model.AddOutputEdgeKeeps | netlist.cpp:258-283 | add_output_edge preserves `Consistent` |
| Netlist.Circuit.AddInputEdge | netlist.cpp:292-323 | the state and status after are `Model.AddInputEdge` |
| Model.InputEdgeEffect | netlist.cpp:292-323 | a non-empty name appends one INPUT_NET net driven by the new gate, and one INPUT gate whose driven nets are exactly that net; the name is bound to the new net; the INPUT type counter, the INPUT_NET counter and the total each rise by one |
| Model.InputEdgeRebinds | netlist.cpp:297 | re-declaring a bound name moves it to the new net; the old net stays but no name denotes it any more |
| Model.AddInputEdgeKeeps | netlist.cpp:292-323 | add_input_edge preserves `Consistent` |
| Model.GateTypeKeeps | netlist.cpp:384-389 | registering a type name preserves `Consistent` |
| Model.RetypeKeeps | netlist.cpp:174-178 | recategorising a net while moving its count preserves `Consistent` |
| Model.CountReaderKeeps | netlist.cpp:180-183 | appending a reader while incrementing its fan-in preserves `Consistent` |
| Model.RecordInputKeeps | netlist.cpp:110 | recording a net the gate already reads in its in-net list preserves `Consistent` |
| Model.DriveKeeps | netlist.cpp:95 | recording as driver a gate that lists the net among its outputs preserves `Consistent` |
| Netlist.Circuit.AddGateStatement | netlist.cpp:77-112 | the state after reading `out = type(in_1, ..., in_k)` is `Model.GateStatement` |
| Model.GateStatementEffect | netlist.cpp:77-112 | one new gate at index `num_gates` with the type's code; its driven nets are exactly the output net, which records it as driver; its fan-in is k; it reads the input nets in order; it is a reader of each of them; older names keep their nets |
| Model.GateStatementKeeps | netlist.cpp:77-112 | a gate statement preserves `Consistent` |
| Netlist.Circuit.AddGateHead | netlist.cpp:81-95 | the state after is `Model.GateHead` |
| Model.GateHeadEffect | netlist.cpp:81-95 | the new gate drives exactly the output net, that net's driver is the new gate, and its type name is registered |
| Model.GateHeadKeeps | netlist.cpp:81-95 | the output-net part preserves `Consistent` |
| Netlist.Circuit.AddGateInput | netlist.cpp:100-111 | the state after one input net is `Model.ReadInput` |
| Model.ReadInputEffect | netlist.cpp:107-110 | the named net gets the gate as a reader; the gate's fan-in rises by one and the net is appended to its in-nets; no other gate changes; nothing recorded before is lost |
| Model.ReadInputNames | netlist.cpp:107-110 | names keep their nets, and the input's name is bound |
| Model.ReadInputKeeps | netlist.cpp:107-110 | one input net preserves `Consistent` |
| Model.ReadInputsKeeps | netlist.cpp:100-111 | the whole input loop preserves `Consistent` |
| Model.ReadInputsBind | netlist.cpp:100-111 | after the loop every input name is bound |
| Model.ReadInputsExtend | netlist.cpp:100-111 | after k inputs the gate's fan-in has risen by k and it reads every named net; other gates are unchanged |
| Model.ReadInputsNets | netlist.cpp:100-111 | the gate's in-nets gain the nets of the input names, in order |
| Netlist.Circuit.UpdateFanOut | netlist.cpp:329-340 | every gate's fan-out becomes `FannedOut`: old fan-out plus the reader counts of its driven nets, mod 2^32 |
| Netlist.AddReaderCounts | netlist.cpp:334-337 | the inner loop adds the reader-list sizes of the nets, wrapping, to the same value as one wrapped addition of their sum |
| Model.FanOutFresh | netlist.cpp:329-340 | from fan-out 0, a gate's fan-out is its number of (driven net, reader) pairs mod 2^32 |
| Model.FanOutTwice | netlist.cpp:329-340 | running the pass twice equals running it once exactly when every gate's reader count is a multiple of 2^32: the pass is not idempotent |
| Model.FanOutKeeps | netlist.cpp:329-340 | the pass preserves `Consistent` |
| Netlist.Circuit.UpdateSameFanInOut | netlist.cpp:128-162 | "INPUT" and "OUTPUT" are registered; each type's same_fanout and same_fanin grow by the number of its gates flagged by `DriveFlags` and `FedFlags` |
| SameType.MarkSameType | netlist.cpp:133-150 | the flag loops set fout exactly on the gates that drive a gate of their own type, and fin exactly on the gates driven by one (INPUT and OUTPUT gates excepted as drivers) |
| SameType.MarkGate | netlist.cpp:139-149 | one gate's pass marks it when one of its successors shares its type, marks exactly those successors, and touches no other fout flag |
| SameType.MarkNet | netlist.cpp:141-147 | the same for the readers of one net |
| SameType.AddMarked | netlist.cpp:151-158 | each type's counters grow by the number of flagged gates of that type |
| SameType.MarkedPositive | netlist.cpp:151-158 | a type's count is positive exactly when a flagged gate has that type |
| SameType.MarkedBound | netlist.cpp:151-158 | a type's count never exceeds its number of gates |
| SameType.SameTypePaired | netlist.cpp:137-149 | for every type, same_fanout grows exactly when same_fanin does |
| SameType.TerminalsUncounted | netlist.cpp:137 | the INPUT and OUTPUT types are counted on neither side |
| Netlist.Circuit.TopoSort | netlist.cpp:409-445 | a non-empty list fails at once. Otherwise: gates are listed at most once, all in range; the result is Ok exactly when every gate is listed; gate fan-ins are untouched. When fan-ins count the edges, the list is a topological order, and on failure a non-empty set of unlisted gates all wait on each other, so no topological order lists every gate |
| Netlist.Release | netlist.cpp:435-440 | the fan-in copy drops by each gate's number of occurrences among the readers of the driven nets; exactly the gates whose count went from positive to zero are queued, once each |
| Netlist.ReleaseNet | netlist.cpp:436-439 | the same for the readers of one net, continuing a partial release |
| Graph.ReleasedStep | netlist.cpp:437-438 | one decrement keeps the release bookkeeping exact, queueing the gate exactly when its count hits zero |
| Graph.SortingStart | netlist.cpp:417-420 | the copied fan-ins with the zero-fan-in queue form a valid initial state of Kahn's algorithm |
| Graph.SortingStep | netlist.cpp:426-441 | dequeuing, listing and releasing one gate keeps the state valid: counts equal fan-in minus the edges from listed gates, and a gate is listed or queued exactly when its count is down to zero |
| Graph.SortingDone | netlist.cpp:442-444 | with the queue empty, a full list lists every gate; a short one leaves a stuck set of gates when fan-ins count edges |
| Graph.StuckExcludesOrder | netlist.cpp:442 | no gate of a stuck set appears in any topological order, so no such order is complete |
| Graph.Pigeonhole | netlist.cpp:442 | a duplicate-free list of gates has at most `num_gates` entries, a full one lists every gate, and a short one leaves one out |
| Tables.FanInMatchesWhenDrivenOnce | netlist.cpp:417-420 | the fan-ins topo_sort copies equal the edge counts its ordering argument needs (`FanInMatchesEdges`), given the builder's invariant that a fan-in counts the gate's reader listings and that every net with readers is driven exactly once |
| Netlist.Circuit.UpdateArrivalTime | netlist.cpp:454-490 | an empty list fails, leaving max_at and the gates alone; otherwise "INPUT" is registered and the gate list, status and max_at are those of `ArrivalRun` |
| Netlist.ArrivalSweep | netlist.cpp:456-488 | the loop computes exactly `ArrivalRun` from max_at = 0 |
| Netlist.ArrivalAt | netlist.cpp:462-486 | one gate's update computes exactly `ArrivalStep` |
| Netlist.LatestDriver | netlist.cpp:474-484 | the in-net loop computes `DriversMax`: none if a driver's arrival is unset, else the running maximum from 0 |
| Timing.DriversMaxMeaning | netlist.cpp:474-484 | the fold is unset exactly when some driver's arrival is unset; otherwise it bounds every driver's arrival and, unless 0, equals one of them |
| Timing.ArrivalStep | netlist.cpp:462-486 | one gate's update changes only that gate's arrival; it keeps the status or aborts reporting that gate; on success max_at becomes the maximum of its old value and the new arrival |
| Timing.ArrivalRun | netlist.cpp:460-488 | the sweep never returns -1 (an empty list is refused earlier), changes only arrival times, and leaves gates outside the order alone |
| Timing.ArrivalStops | netlist.cpp:466 | after an exit nothing further changes: the run over `done + rest` equals the run over `done` when that one aborted |
| Timing.ArrivalMax | netlist.cpp:469 | on success max_at bounds the arrival of every gate in the order and, for a non-empty order, equals one of them |
| Timing.ArrivalFixedPoint | netlist.cpp:460-488 | on success, over an order that lists drivers before readers, every listed gate satisfies its arrival equation: fan_out for INPUT gates, else the max of its drivers' arrivals plus fan_out, mod 2^32 |
| Timing.TopoOrderDriversFirst | netlist.cpp:409-445 | in a topological order of a well-formed netlist, each non-INPUT gate's drivers come before it |
| Netlist.Circuit.UpdateSlack | netlist.cpp:499-533 | an empty list fails, leaving the gates alone; otherwise "OUTPUT" is registered and the gate list and status are those of `SlackRun` over the reversed order |
| Netlist.SlackSweep | netlist.cpp:503-531 | the reverse loop computes exactly `SlackRun` |
| Netlist.SlackAt | netlist.cpp:505-528 | one gate's update computes exactly `SlackStep` |
| Netlist.EarliestRequired | netlist.cpp:516-526 | the two reader loops compute `MinRequired` over the gate's successors, stopping at the first unset reader |
| Netlist.FoldReaders | netlist.cpp:518-525 | the reader loop of one net continues the fold exactly as `MinRequired` over the readers seen so far |
| Timing.MinRequiredMeaning | netlist.cpp:516-526 | the fold reports an unset reader, which is in the list, exactly when one is unset; otherwise it bounds every reader's `r_time - fan_out` (mod 2^32) from below and, unless still 0xFFFFFFFF, equals one of them |
| Timing.SlackStep | netlist.cpp:505-528 | one gate's update changes only that gate's required time and slack, and either keeps the status or aborts |
| Timing.SlackRun | netlist.cpp:503-531 | the sweep never returns -1, changes only required times and slacks, and leaves gates outside the order alone |
| Timing.SlackStops | netlist.cpp:510 | after an exit nothing further changes |
| Timing.SlackFixedPoint | netlist.cpp:503-531 | on success, over an order whose gates' readers come later, every listed gate satisfies its equations. An OUTPUT gate has r_time = max_rt, a set arrival and slack = max_rt - a_time. Any other gate has r_time = the min over its readers of `r_time - fan_out`, and slack = r_time - a_time, mod 2^32 |
| Timing.TopoOrderReadersLater | netlist.cpp:409-445 | in a complete topological order, each gate's readers come after it |
| Types.Add32Twice | netlist.cpp:336 | adding two counts with wrap-around in two steps equals adding their sum in one |
| Types.Add32Fixed | netlist.cpp:336 | adding k leaves a u32 unchanged exactly when k is a multiple of 2^32 |
| Types.Sub32Wraps | netlist.cpp:512 | the wrapping subtraction is subtraction mod 2^32 and adding the subtrahend back restores the minuend |

## Left out

- Reading the netlist file: opening it, line splitting, `strtok` tokenising and `trim`
  (netlist.cpp:21-118, 363-375). Only the builder calls of a gate statement are modelled,
  as `AddGateStatement` over an already split statement. The input and output declarations
  are the builder calls `add_input_edge` and `add_output_edge`.
- `main.cpp`: argument checks, output formatting and the debug printers. It runs the passes
  in the order fan-out, sort, arrival, slack. Here that order is a hypothesis of the lemmas:
  - `ArrivalFixedPoint` wants drivers first, which `TopoOrderDriversFirst` supplies from a sort;
  - `SlackFixedPoint` wants readers later, which `TopoOrderReadersLater` supplies.
- Process exit and error output. `exit(-1)` is the status `Aborted(g)` with the reported
  gate, and the printed message is not modelled.
- Memory management: the `new[]`/`delete[]` of the work arrays, and the leak of topo_sort's
  copy on the failure path.
- `num_gates` and `num_nets` are not stored. Every builder increments them together with a
  `push_back`, so they are read off the list lengths.
- Id width: ids, fan-ins and counters are unbounded naturals and integers, not u32. Only
  fan-out, arrival, required time and slack wrap at 2^32, which is where the sweeps depend
  on it.
- Netlist.Circuit.TopoSort: the private fan-in copy is an array of unbounded integers, not
  u32. The two differ only after 2^32 decrements of a gate whose count is already zero.
- Netlist.Circuit.TopoSort: the ordering and cycle claims assume `FanInMatchesEdges`: each
  gate's fan-in equals the number of driver-to-reader edge instances into it. The builder
  maintains "fan-in equals occurrences among all reader lists" (`FanInOk`).
  `FanInMatchesWhenDrivenOnce` proves that the second gives the first when every net that has
  readers is listed exactly once among the gates' driven nets (`DrivenOnce`). The builder
  does not enforce that: two gate statements may name the same output net, and a net that is
  read but never driven is listed no times.
- Netlist.KeyFor, Netlist.Circuit.GateName, Netlist.Circuit.EdgeName: they return some
  matching key, where `std::map` iteration returns the least one. The two agree under the
  maintained invariants, because no two names share a code or a net (`GateNameInverse`,
  `EdgeNameInverse`).
- Timing.ArrivalFixedPoint, Netlist.Circuit.UpdateArrivalTime: reading the driver of a net
  that no gate drives is undefined in the source (an uninitialised field). Such nets are
  excluded by the precondition `ArrivalReady`.
- Netlist.Circuit.UpdateSameFanInOut: it always returns 0, so the method has no result.
  Its requires demands that ids are positions, which the builder guarantees.
- The header is not part of this model. It declares the initial values of the timing fields
  (`UNSET` here), the sizes of the per-type counter arrays (maps with default 0 here) and
  the initial state of the circuit.

Notes on what the code does:

- `update_fan_out` adds with `+=` (netlist.cpp:336), so a second run adds again;
  `FanOutTwice` states exactly when two runs agree with one.
- `add_gate_to_net` promotes any net that already has a reader to `HYPEREDGE`, whatever its
  category and even when the same gate reads it twice (netlist.cpp:174-178).
  `add_output_edge` never promotes; it lists its gate as a reader directly.
