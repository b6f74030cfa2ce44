# RIAPS kernel: verified model

RIAPS is a small realtime-audio kernel. This Dafny project models the five components of it that
hold real invariants, and proves those invariants for every input, every run and every interleaving:

* the host/DSP block adapter (`crates/riaps-host/src/adapter_buf.rs`), which rebuffers host blocks of
  H samples into DSP blocks of D samples through two circular arrays primed with silence;
* the graph compiler and executor (`crates/riaps-dsp/src/graph.rs`), which turns an edge list into a
  schedule over one flat sample array;
* hazard-pointer publication of compiled graphs (the same file);
* the single-producer single-consumer ring (`crates/riaps-core/src/spsc.rs`) with its clients, the
  event bus and the parameter queue;
* the emergency slot, a two-flag handoff (`crates/riaps-core/src/memory.rs`).

`dafny verify dfyconfig.toml` checks everything.

## How the model is built

Code that updates an object in place is a class (`SampleFifo`, `AdapterBuffer`, `DspGraphInner`,
`DynamicGraphBuilder`, `SpscRing`, `EventBus`, `ParameterQueue`, `GainNode`, `EmergencySlot`). Its
methods keep the loops and the branch order of the source. Each is proved against a function on
values (`Processed`, `Drained`, `Flushed`, `Execute`, `PushCall`, ...) or directly against what the
source promises, and the theorems about whole runs are lemmas on those functions.

Concurrent code is, in addition, an interleaving of single atomic accesses (`Publication`,
`SpscProtocol`, `EventBuses`, `ParameterExchanges`, `EmergencySlots`): a step takes one actor past one
access, actors keep stale local copies, and a theorem about `Reachable` states covers every
interleaving of every length.

| file | content |
|---|---|
| `Words`, `Wrappers`, `Sequences`, `Samples`, `NumberTheory` | word sizes, results, samples as bit patterns, Euclid and Bezout |
| `SampleFifo`, `AdapterModel`, `AdapterBuffer` | the FIFO, one host callback as a function, the adapter object |
| `AdapterRuns`, `AdapterDelays`, `AdapterStreams`, `AdapterTraces`, `AdapterRestart` | theorems over all runs: safety and capacity, the delay, the stream, the calls of the callback, resuming after `flush` |
| `Graphs`, `Kahn`, `PathLatency`, `GraphBuilder` | paths and cycles, the worklist, longest paths, `compile` |
| `GraphMeaning`, `DspGraph` | the equations of a graph, schedules, `process` over the flat buffer |
| `Publication`, `PublicationSafety`, `PublicationCalls`, `PublicationVersions` | the publication protocol, what it keeps, what its operations do, the versions it hands out |
| `SpscProtocol`, `SpscCounting`, `SpscSafety`, `SpscCalls`, `SpscRing` | the ring protocol, what it keeps of the counts and of the values, whole calls, the ring object |
| `EventBus`, `EventBusObject`, `ParameterExchange`, `ParameterQueue`, `EmergencySlot` | the clients of the ring, and the slot |

Assumptions that hold throughout:

* Atomics are sequentially consistent, and fences do nothing. The source mixes SeqCst, AcqRel,
  Acquire, Release and Relaxed.
* A sample is the bit pattern of an IEEE single. Addition, multiplication and dB conversion are
  arbitrary functions without any law, so the order of every sum matters and is proved.
* A DSP callback or node is a pair of functions of its explicit state and its input: the next state,
  and each output sample. It writes the whole output slice. The adapter's callback may also read
  what its output slice held before.
* A callback is balanced when it brings as many input samples as it asks for output samples.
* The width of `usize` is a parameter (`modulus`) in the ring and 64 bits elsewhere.

Places where the code and its own documentation differ:

* `spsc.rs:4` calls the indices monotonic and unbounded. They wrap at the width of `usize`.
  `SpscCalls.FifoForeverIffDivides` shows that the ring is a FIFO for ever if and only if its size
  divides the number of index values; `SpscSafety.BoundedFifo` covers any size while fewer than 2^W
  values have been pushed.
* `node.rs:60` says that a drain keeps the latest value. With index overflow it does so if and only if
  N = 1 or N does not divide 2^W - 1 (`ParameterExchanges.LatestWinsForever`); the gain node's 16 is safe.
* `adapter_buf.rs:61` calls `latency_samples` the current latency. The delay is the sum of all
  `latency_added_samples`, and the field is this sum capped at D - 1
  (`AdapterDelays.LatencyFieldIsCapped`). `LatencyFieldIsExact` shows when the two agree: if and only
  if the host changed its quantum only when what it had sent filled whole blocks. With D >= 2,
  D - 1 callbacks of one sample and then one of two make the delay 2D - 2 while the field says D - 1
  (`DelayBoundIsReached`).
* `adapter_buf.rs:37-38` asks for a capacity of two DSP blocks "for arbitrary host/DSP block
  relationships". At a fixed quantum the exact bound is H + D - gcd(H, D)
  (`AdapterRuns.CapacityThreshold`), so two blocks suffice exactly when H <= D + gcd(H, D)
  (`AdapterDelays.TwoBlocksSuffice`). With changing quanta up to M it is M + 2D - 2
  (`AdapterDelays.BalancedCapacityThreshold`).

## Model

| member | source | states |
|---|---|---|
| SampleFifos.SampleFifo.constructor | crates/riaps-host/src/adapter_buf.rs:200-208 | A new FIFO of the given size represents the empty queue. |
| SampleFifos.SampleFifo.PushSlice | crates/riaps-host/src/adapter_buf.rs:216-227 | The queue gains exactly the longest prefix of the slice that fits, in order, through any wrap of the write index; the count returned is the length of that prefix. |
| SampleFifos.SampleFifo.PushZeros | crates/riaps-host/src/adapter_buf.rs:230-241 | The queue gains as many silent samples as fit, at most the requested count. |
| SampleFifos.SampleFifo.Pop | crates/riaps-host/src/adapter_buf.rs:244-255 | The oldest sample leaves the queue; an empty queue gives nothing and stays empty. |
| AdapterBuffers.GreatestCommonDivisor | crates/riaps-host/src/adapter_buf.rs:182-189 | The loop ends with a common divisor of both numbers that no other common divisor exceeds. |
| NumberTheory.LargestResidueReached | crates/riaps-host/src/adapter_buf.rs:3-8 | After some number of host blocks the samples left over are exactly D - gcd(H, D), the reserve the header calls minimal. |
| AdapterBuffers.AdapterBuffer.constructor | crates/riaps-host/src/adapter_buf.rs:39-55 | Under the two assertions of the constructor the object is a fresh adapter: empty FIFOs, silent scratch, no quantum, no latency. |
| AdapterBuffers.AdapterBuffer.PrimeForQuantum | crates/riaps-host/src/adapter_buf.rs:159-179 | The first quantum raises the pending output to D - gcd, a changed one to D - 1, an unchanged or zero one does nothing; returns the silence inserted. |
| AdapterBuffers.AdapterBuffer.DrainCompleteBlocks | crates/riaps-host/src/adapter_buf.rs:136-152 | The loop equals rendering all complete blocks of the input queue at once and clipping the result to the room; the block count is the quotient by D and the drop count is what neither FIFO holds. |
| AdapterModel.DrainOne | crates/riaps-host/src/adapter_buf.rs:142-150 | Clipping block by block loses exactly the same samples as clipping the whole rendering. |
| AdapterBuffers.AdapterBuffer.ProcessHostBlock | crates/riaps-host/src/adapter_buf.rs:76-106 | One callback turns the adapter value, the host's output slice and the report into those of the model function that the run theorems are about; the input FIFO is again shorter than a block. |
| AdapterBuffers.AdapterBuffer.Flush | crates/riaps-host/src/adapter_buf.rs:110-133 | Returns the pending output followed by the rendering of the zero-padded remainder, cut to the remainder's length and to the room left; both FIFOs end empty. |
| AdapterRuns.StepLengths | crates/riaps-host/src/adapter_buf.rs:76-106 | Closed formulas for both FIFO lengths and every report field after any callback, from the lengths before it alone. |
| AdapterRuns.MinimalReserve | crates/riaps-host/src/adapter_buf.rs:3-8 | At a fixed quantum a reserve never underruns in any run if and only if it is at least D - gcd(H, D). |
| AdapterRuns.FirstPriming | crates/riaps-host/src/adapter_buf.rs:164-178 | The first callback of a fresh adapter primes exactly this minimal reserve. |
| AdapterRuns.FixedQuantumIsSafe | crates/riaps-host/src/adapter_buf.rs:76-106 | A fresh adapter with room for H + D - gcd(H, D) samples never underruns or drops at quantum H; the input FIFO holds kH mod D samples and both FIFOs together D - gcd(H, D), which is also the reported latency. |
| AdapterRuns.CapacityThreshold | crates/riaps-host/src/adapter_buf.rs:39-55 | No run at quantum H drops an input or output sample if and only if the capacity is at least H + D - gcd(H, D). |
| AdapterRuns.QuantumChangesAreSafe | crates/riaps-host/src/adapter_buf.rs:154-179 | For any sequence of balanced callbacks with room for the largest one plus 2D - 2: no underrun, no drop, and the delay (both FIFO lengths) is the sum of the announced latencies and at most 2D - 2. |
| AdapterDelays.LatencyFieldIsCapped | crates/riaps-host/src/adapter_buf.rs:61-64 | After any sequence of balanced callbacks the latency field is the real delay capped at D - 1. |
| AdapterDelays.LatencyFieldIsExact | crates/riaps-host/src/adapter_buf.rs:61-64 | After any sequence of balanced callbacks the field equals the real delay if and only if every change of quantum came when the samples sent so far filled whole blocks, a condition on the callbacks' lengths alone. |
| AdapterDelays.DelayBoundIsReached | crates/riaps-host/src/adapter_buf.rs:156-174 | For every D, D - 1 callbacks of one sample and one of two announce a delay of 2D - 2 while the field says D - 1: the bound on the delay is tight, and for D >= 2 the field is wrong there. |
| AdapterDelays.BalancedCapacityThreshold | crates/riaps-host/src/adapter_buf.rs:35-55 | No run of balanced callbacks of up to M samples, whatever the changes of quantum, drops a sample if and only if the capacity is at least M + 2D - 2. |
| AdapterDelays.TwoBlocksSuffice | crates/riaps-host/src/adapter_buf.rs:37-44 | The minimal capacity the constructor accepts, 2D, never drops a sample at quantum H if and only if H <= D + gcd(H, D). |
| AdapterRuns.SampleLedger | crates/riaps-host/src/adapter_buf.rs:85-105 | For any input and output lengths, drops and underruns included: accepted input plus added latency equals delivered samples plus dropped output plus both FIFO lengths, and every input sample is accepted or dropped. |
| AdapterRuns.PrimingIsComplete | crates/riaps-host/src/adapter_buf.rs:174-178 | The debug assertion of priming holds: the capacity never cuts the silence that is needed. |
| AdapterStreams.RenderAppend | crates/riaps-host/src/adapter_buf.rs:136-152 | Feeding a stream in two parts with the remainder carried over renders the same as feeding it whole, callback state included. |
| AdapterStreams.StreamIsPreserved | crates/riaps-host/src/adapter_buf.rs:76-106 | In every run, whatever the quanta, the drops and the underruns: the callback has seen exactly the consecutive D-blocks of the accepted input. What the host received (without underrun silence) plus pending output is their rendering, with the announced silence put in before each callback's blocks and the reported drops missing at their end. |
| AdapterStreams.UnderrunIsSilent | crates/riaps-host/src/adapter_buf.rs:95-103 | Every host slice is received samples followed by exactly the reported number of silent ones. |
| AdapterStreams.FixedQuantumStream | crates/riaps-host/src/adapter_buf.rs:76-152 | At a fixed quantum all the silence comes first: delivered plus pending output is D - gcd(H, D) silent samples and then the rendering of the whole input. |
| AdapterStreams.FlushedRun | crates/riaps-host/src/adapter_buf.rs:76-133 | For every run, drops and underruns included: up to and including flush the callback sees the blocks of the accepted input padded with silence, and the host receives the woven rendering of the complete blocks and then the remainder's samples, as many as the output FIFO has room for. |
| AdapterStreams.FlushedBalanced | crates/riaps-host/src/adapter_buf.rs:76-133 | For every run of balanced callbacks with room for the largest one plus 2D - 2, whatever the quanta, flush adds the remainder's samples without a cut. |
| AdapterStreams.FlushedStream | crates/riaps-host/src/adapter_buf.rs:76-133 | At a fixed quantum, up to and including flush, with any callback: the callback sees the blocks of the input padded with silence to a whole block, and the host receives the primed silence and their rendering cut to the input's length. |
| AdapterStreams.CopyIsDelay | crates/riaps-host/src/adapter_buf.rs:76-133 | With a copying callback all host output including flush is D - gcd(H, D) silent samples followed by the whole input. |
| AdapterTraces.RenderTrace | crates/riaps-host/src/adapter_buf.rs:142-150 | Rendering a stream is calling the callback once for each consecutive complete block, each time on the state and the output slice that the call before it left behind; the rendering is the slices in order. |
| AdapterTraces.CallbackSeesBlocks | crates/riaps-host/src/adapter_buf.rs:76-152 | After every run the callback has been called exactly so on the blocks of the accepted input and is in its last state, the rest waits in the input FIFO, and what the host received plus pending output is its slices with the announced silence and without the reported drops. |
| AdapterTraces.CallbackSeesFlush | crates/riaps-host/src/adapter_buf.rs:110-133 | Up to and including flush the last block is the remainder padded with silence, the callback ends in the state after it, and the host receives its slice cut to the remainder and to the room left. |
| AdapterRestarts.RestartUnderruns | crates/riaps-host/src/adapter_buf.rs:110-169 | Because flush hands out the reserve and keeps the quantum, the next callback at the same quantum H underruns exactly H mod D samples. |
| AdapterRestarts.RestartCost | crates/riaps-host/src/adapter_buf.rs:110-169 | A whole run resumed after flush at the same quantum drops nothing and misses at most D - gcd(H, D) samples altogether. |
| AdapterRestarts.RestartCostIsReached | crates/riaps-host/src/adapter_buf.rs:110-169 | Some resumed run misses exactly D - gcd(H, D) samples. |
| AdapterRestarts.RestartIsSafe | crates/riaps-host/src/adapter_buf.rs:110-169 | Resuming after flush at the same quantum never underruns if and only if D divides H. |
| Kahn.Neighbours | crates/riaps-dsp/src/graph.rs:83-90 | The lists hold exactly the edge sources and targets of every vertex in insertion order, and the counters their numbers. |
| Graphs.PredecessorsInOrder | crates/riaps-dsp/src/graph.rs:86-88 | The predecessor list of a node is the sources of exactly the edges into it, in insertion order. |
| Graphs.SuccessorsInOrder | crates/riaps-dsp/src/graph.rs:86-87 | The adjacency list of a node is the targets of exactly the edges from it, in insertion order. |
| Graphs.Sinks | crates/riaps-dsp/src/graph.rs:107-111 | The sinks are exactly the nodes without successors, strictly increasing, so none is mixed twice. |
| Kahn.StillPending | crates/riaps-dsp/src/graph.rs:96-98 | Each released edge is still counted in its target's indegree, so the decrement never underflows. |
| Kahn.KahnOrder | crates/riaps-dsp/src/graph.rs:91-105 | The worklist ends with all vertices if and only if the graph has no cycle, and then every edge goes forward in the order. |
| Kahn.WorklistDone | crates/riaps-dsp/src/graph.rs:94-105 | When the worklist runs dry the vertices ordered so far are distinct, and either all of them in topological order or some of the others form a cycle. |
| Graphs.StuckHasCycle | crates/riaps-dsp/src/graph.rs:103-105 | If every vertex left over waits for another one left over, there is a closed path. |
| Graphs.TopologicalIsAcyclic | crates/riaps-dsp/src/graph.rs:103-105 | A graph with a complete order has no closed path, self-loops included. |
| PathLatency.LongestStep | crates/riaps-dsp/src/graph.rs:113-120 | The saturating maximum over the predecessors plus the node's own latency is the saturated sum of the longest of all paths to the node: saturation commutes with maximum and sum. |
| PathLatency.SinksAreEnough | crates/riaps-dsp/src/graph.rs:107-125 | The maximum over the sinks alone is the longest path of the whole graph. |
| PathLatency.PathSumIsSum | crates/riaps-dsp/src/graph.rs:119 | The sum of a path adds up the latencies at its nodes, one after the other. |
| PathLatency.LongestIsLargest | crates/riaps-dsp/src/graph.rs:119-125 | The saturated longest path is the largest latency sum, or usize::MAX if some path reaches it. |
| GraphBuilders.TotalLatency | crates/riaps-dsp/src/graph.rs:112-125 | The computed latency is the minimum of usize::MAX and the largest latency sum over all paths. |
| GraphBuilders.DynamicGraphBuilder.AddNode | crates/riaps-dsp/src/graph.rs:51-54 | Appends the node and returns its index; edges stay valid and unchanged. |
| GraphBuilders.DynamicGraphBuilder.Connect | crates/riaps-dsp/src/graph.rs:56-68 | Appends the edge if and only if both ends exist and it is new; otherwise changes nothing and names the first bad end, or the duplicate. |
| GraphBuilders.DynamicGraphBuilder.Disconnect | crates/riaps-dsp/src/graph.rs:70-72 | Removes the edge and keeps the order of the others; the edge list stays free of duplicates. |
| GraphBuilders.WithoutRemoves | crates/riaps-dsp/src/graph.rs:70-72 | In a list without duplicates exactly the one edge goes and the others keep their order. |
| GraphBuilders.DisconnectUndoesConnect | crates/riaps-dsp/src/graph.rs:56-72 | Disconnecting a newly connected edge restores the edge list, order included. |
| GraphBuilders.DynamicGraphBuilder.Compile | crates/riaps-dsp/src/graph.rs:76-144 | Empty iff there are no nodes, CycleDetected iff a nonempty graph has a cycle, BufferSizeOverflow iff neither and n * max_block exceeds usize::MAX, no other error; otherwise a valid executor of the same nodes and edges with the longest-path latency. |
| GraphMeaning.MixIsLeftSum | crates/riaps-dsp/src/graph.rs:183-192 | Every mixed sample is the left-to-right sum, from silence on, of the samples of all sources in list order. |
| GraphMeaning.SolutionMeans | crates/riaps-dsp/src/graph.rs:178-203 | In a solution, sample by sample: a node without predecessors reads the graph input, any other the left-to-right sum of its predecessors in edge order; it writes its whole slice and is stepped once, both on what it read. |
| GraphMeaning.BlocksMean | crates/riaps-dsp/src/graph.rs:175-213 | Over any sequence of blocks every block means exactly that, on the node states that the block before it left behind. |
| GraphMeaning.SolutionIsUnique | crates/riaps-dsp/src/graph.rs:173-203 | The per-block equations of an acyclic graph (sources read the input, other nodes the left fold of their predecessors in edge order) have at most one solution. |
| GraphMeaning.ExecuteSolves | crates/riaps-dsp/src/graph.rs:178-203 | Executing nodes in any topological order, from any stale buffers, yields that solution and steps each node exactly once on its input in the solution. |
| GraphMeaning.ScheduleIndependent | crates/riaps-dsp/src/graph.rs:178-203 | Outputs and node states of a block are the same for every topological order and every stale content. |
| GraphMeaning.BlocksScheduleIndependent | crates/riaps-dsp/src/graph.rs:173-213 | The same over any sequence of blocks of any lengths. |
| DspGraphs.CellWrite | crates/riaps-dsp/src/graph.rs:195-197 | Writing one node's slice of the flat array changes no other node's slice. |
| DspGraphs.DspGraphInner.constructor | crates/riaps-dsp/src/graph.rs:130-143 | The flat array has one cell of max_block samples for each node, and the stored schedule is topological. |
| DspGraphs.DspGraphInner.RunNode | crates/riaps-dsp/src/graph.rs:179-202 | One node reads the graph input or, sample by sample, the left-to-right sum of its predecessors' cells, overwrites its own cell with the slice it writes on that and is stepped once on it; all slices are in bounds. |
| DspGraphs.DspGraphInner.Process | crates/riaps-dsp/src/graph.rs:175-213 | The block's node values are the graph's unique solution, every node is stepped exactly once on what it read, and every output sample is the left-to-right sum over the sinks in index order, silence after the block. |
| PublicationCalls.SwapPublishes | crates/riaps-dsp/src/graph.rs:282 | The exchange publishes the graph the swap brought in, and the swap then holds the graph published until then; no other place changes. |
| PublicationCalls.SwapInterleaved | crates/riaps-dsp/src/graph.rs:280-289 | With any steps of others in between: the graph handed to swap is what its exchange publishes, and its token carries the graph that was published until then. |
| PublicationCalls.PublishedStays | crates/riaps-dsp/src/graph.rs:280-289 | No step but an exchange changes the published pointer. |
| PublicationCalls.PlaceStays | crates/riaps-dsp/src/graph.rs:280-386 | No step but the next one of its own operation takes a pointer from a swap, a token, a recovery or a box; a leaked graph stays leaked. |
| PublicationCalls.SwapFinishes | crates/riaps-dsp/src/graph.rs:284-288 | The token takes the old graph, the version this swap obtained and one reference to the shared state. |
| PublicationCalls.PinRefused | crates/riaps-dsp/src/graph.rs:252-255 | An attempt to pin is refused, and changes nothing, if and only if some actor is in a pin. |
| PublicationCalls.PinSucceeds | crates/riaps-dsp/src/graph.rs:251-268 | From every reachable state with the handle alive and no pin in progress, the four accesses in a row end in a guard on the published graph, which the hazard names. |
| PublicationCalls.PinValidates | crates/riaps-dsp/src/graph.rs:260-266 | The validation gives a guard if and only if the loaded pointer is still published, and otherwise loops back once more. |
| PublicationCalls.ValidationSucceeds | crates/riaps-dsp/src/graph.rs:257-267 | A validation with no exchange since its load always succeeds. |
| PublicationCalls.GuardDrops | crates/riaps-dsp/src/graph.rs:319-330 | Dropping a guard clears the hazard and lets the next pin in; no graph moves. |
| PublicationCalls.RecoveryInterleaved | crates/riaps-dsp/src/graph.rs:365-374 | A recovery that is not refused hands back, with any steps of others in between, the graph of its token as a box. |
| PublicationCalls.TokenLeaks | crates/riaps-dsp/src/graph.rs:332-340 | Dropping a token leaves its graph allocated, held by nobody who could free it. |
| PublicationCalls.OperationsStart | crates/riaps-dsp/src/graph.rs:251-375 | Pin and swap can begin whenever the handle is alive and the actor idle, recovery whenever the token is there; nothing else is needed. |
| PublicationCalls.HandleDropStarts | crates/riaps-dsp/src/graph.rs:223-225 | The handle can be dropped exactly when no operation or guard borrows it. |
| PublicationSafety.InvKept | crates/riaps-dsp/src/graph.rs:251-386 | Every atomic access of every actor keeps the protocol invariant: unique ownership, exact reference count, one pin, guarded graphs retained, bounded retries. |
| PublicationSafety.HazardSafety | crates/riaps-dsp/src/graph.rs:251-268 | In every reachable state a guard's graph is live and is the allocation it was when pinned, the hazard names it, nobody holds it as a box, as a swap argument or in recovery, and there is no other guard. |
| PublicationSafety.GuardSurvives | crates/riaps-dsp/src/graph.rs:319-330 | No step but the guard's own drop ends a guard, frees its graph or reuses its address. |
| PublicationSafety.OwnershipIsUnique | crates/riaps-dsp/src/graph.rs:280-289 | An address is live if and only if exactly one place holds it: published, in a swap, in a retired token, in recovery, in a box or leaked by a dropped token. |
| PublicationSafety.BoxDropFreesOnce | crates/riaps-dsp/src/graph.rs:352-360 | Dropping a recovered graph frees one live graph that nobody else holds afterwards. |
| PublicationSafety.LastReleaseFreesCurrent | crates/riaps-dsp/src/graph.rs:377-386 | The step that drops the last reference frees exactly the published graph, and no handle, token, operation or guard is left. |
| PublicationSafety.PinRetriesAreBounded | crates/riaps-dsp/src/graph.rs:257-267 | A pin has looped back at most as often as pointers were exchanged since it began. |
| PublicationSafety.ReclaimRefused | crates/riaps-dsp/src/graph.rs:365-373 | Recovery is refused if and only if the hazard names the graph, and then a guard or a pin in progress accounts for it. |
| PublicationSafety.OperationsProceed | crates/riaps-dsp/src/graph.rs:251-289 | In every reachable state the next access of every operation in progress is possible. |
| PublicationVersions.VersionCounts | crates/riaps-dsp/src/graph.rs:283 | The version is one plus the number of completed increments, modulo 2^64. |
| PublicationVersions.RetiredVersions | crates/riaps-dsp/src/graph.rs:283-288 | The retired_at_version of every token is the version of one past increment, a different one for every token; until the counter wraps, versions of tokens are distinct and at most the current version. |
| SpscSafety.SlotsApart | crates/riaps-core/src/spsc.rs:170 | Fewer than N apart, two indices use different slots, through index overflow if N divides 2^W and before it otherwise. |
| SpscSafety.ProducerKeepsInv | crates/riaps-core/src/spsc.rs:162-174 | No access of the producer, with its stale head, disturbs a queued value or the consumer's knowledge. |
| SpscSafety.ConsumerKeepsInv | crates/riaps-core/src/spsc.rs:186-225 | No access of the consumer, with its stale tail, disturbs the producer; every slot it reads holds the value pushed there. |
| SpscSafety.BoundedFifo | crates/riaps-core/src/spsc.rs:162-197 | In every interleaving, while N divides 2^W or fewer than 2^W values were pushed, the consumed values are a prefix of the published ones and producer and consumer never use the same slot at once. |
| SpscCounting.CountsKept | crates/riaps-core/src/spsc.rs:162-225 | Every access of either side keeps the indices equal to the counts modulo 2^W and the ring from overfilling, for every N and through any number of index overflows. |
| SpscCounting.NeverOverfull | crates/riaps-core/src/spsc.rs:162-197 | In every interleaving, for every N, at most N values are queued and no more consumed than published. |
| SpscCounting.RefusedWhenFull | crates/riaps-core/src/spsc.rs:164-168 | A push is refused if and only if N values are queued at its load of the head. |
| SpscCounting.NothingWhenEmpty | crates/riaps-core/src/spsc.rs:188-192 | A pop returns nothing if and only if the queue is empty at its load of the tail. |
| SpscCounting.RefusedWhenShort | crates/riaps-core/src/spsc.rs:213-217 | A slice is refused if and only if fewer values than wanted are queued at its load of the tail. |
| SpscCounting.ObservedLength | crates/riaps-core/src/spsc.rs:83-89 | A thread that loads the tail and, any number of steps later, the head gets the number of values of the earlier queue that are still there, and a number above N if and only if the consumer has passed that tail (with fewer than 2^W - N values consumed past it). |
| SpscCalls.OverflowBreaksFifo | crates/riaps-core/src/spsc.rs:162-197 | If N does not divide 2^W, a run exists in which a queued value is overwritten and another delivered in its place. |
| SpscCalls.FifoForeverIffDivides | crates/riaps-core/src/spsc.rs:4 | The consumed values are a prefix of the published ones in all reachable states if and only if N divides 2^W. |
| SpscCalls.OverflowSharesSlot | crates/riaps-core/src/spsc.rs:162-197 | If N does not divide 2^W, a run exists in which a push about to write and a pop about to read are on the same slot. |
| SpscCalls.ApartForeverIffDivides | crates/riaps-core/src/spsc.rs:169-194 | Push and pop never work on the same slot in all reachable states if and only if N divides 2^W. |
| SpscCalls.PushCallAppends | crates/riaps-core/src/spsc.rs:162-174 | An uninterrupted push appends to the queue, or leaves a full ring unchanged, for every N. |
| SpscCalls.PushCallIsSound | crates/riaps-core/src/spsc.rs:162-174 | While N divides 2^W or fewer than 2^W values were pushed, it leaves every queued value in its slot. |
| SpscCalls.PopCallTakes | crates/riaps-core/src/spsc.rs:186-197 | An uninterrupted pop takes the oldest value, or leaves an empty ring unchanged. |
| SpscCalls.SliceCallTakes | crates/riaps-core/src/spsc.rs:205-225 | The accesses of an uninterrupted slice pop take exactly the wanted values, the oldest first, or change nothing if fewer are queued. |
| SpscRings.SpscRing.constructor | crates/riaps-core/src/spsc.rs:69-76 | A new ring is the initial state of the protocol. |
| SpscRings.SpscRing.Len | crates/riaps-core/src/spsc.rs:85-89 | Between calls the wrapped difference of the indices is the number of queued values. |
| SpscRings.SpscRing.CapacityLeft | crates/riaps-core/src/spsc.rs:98-100 | The result is the number of free slots, and never more than N even when the indices are out of step. |
| SpscRings.SpscRing.Push | crates/riaps-core/src/spsc.rs:162-174 | The method performs exactly the accesses of the protocol: the value is queued, or given back by a full ring. |
| SpscRings.SpscRing.Pop | crates/riaps-core/src/spsc.rs:186-197 | The oldest queued value is returned and leaves the queue; an empty queue gives nothing. |
| SpscRings.SpscRing.PopSliceCopy | crates/riaps-core/src/spsc.rs:205-225 | All wanted values, the oldest first, leave the queue together, or none does and the error is InsufficientData. |
| SpscRings.SpscRing.Drop | crates/riaps-core/src/spsc.rs:137-149 | Dropping releases exactly the pushed and not popped values, each once and in order, in at most N rounds, although the loop counter wraps. |
| EventBuses.DecisionKeepsInv | crates/riaps-dsp/src/event_bus.rs:93-101 | With a stale tail and a concurrent drain, the capacity check drops an event if and only if it is ordinary and at most eight slots are free at the load. |
| EventBuses.PushKeepsInv | crates/riaps-dsp/src/event_bus.rs:103-108 | An ordinary event that passed the check still has room outside the reserve at every access of its push. |
| EventBuses.OrdinaryEventsAreBounded | crates/riaps-dsp/src/event_bus.rs:10-11 | In every interleaving at most N - 8 ordinary events are queued. |
| EventBuses.FatalDropNeedsFatalBacklog | crates/riaps-dsp/src/event_bus.rs:105-108 | Only a fatal event ever finds the ring full, and then at least eight fatal events are queued. |
| EventBuses.OrdinaryDropIsExact | crates/riaps-dsp/src/event_bus.rs:97-101 | In every reachable state an ordinary event is dropped exactly when at most eight slots are free. |
| EventBuses.EmitLedger | crates/riaps-dsp/src/event_bus.rs:93-122 | Finished emits equal delivered plus queued plus dropped events, and the overflow counter is the drops modulo 2^32. |
| EventBuses.EmitCall | crates/riaps-dsp/src/event_bus.rs:93-109 | A whole emit, access by access: the event is dropped and counted if the ring is full, or if it is none of AudioThreadStopped, HostAdapterBlockSizeChanged and SpscOverflow and at most 8 slots are free; otherwise it is queued last. |
| EventBuses.DrainTakes | crates/riaps-dsp/src/event_bus.rs:112-118 | A pop of drain, access by access, delivers the oldest event, and changes nothing on an empty ring. |
| EventBuses.DeliveredInOrder | crates/riaps-dsp/src/event_bus.rs:103-118 | While N divides 2^W or fewer than 2^W events were queued, the delivered events are the first queued ones in order. |
| EventBusObjects.EventBus.constructor | crates/riaps-dsp/src/event_bus.rs:83-89 | A new bus is empty with a zero counter. |
| EventBusObjects.EventBus.Emit | crates/riaps-dsp/src/event_bus.rs:93-109 | The event is queued unless the ring is full, or it is none of the three fatal kinds and at most 8 slots are free; a drop changes nothing but the counter. |
| EventBusObjects.EventBus.Drain | crates/riaps-dsp/src/event_bus.rs:112-118 | All waiting events are delivered in order and the ring ends empty. |
| ParameterExchanges.LatestWins | crates/riaps-dsp/src/node.rs:62-71 | Under concurrent pushes, a drain that ends has consumed as many values as were published by its last empty check; the target is the latest published value if the drain consumed any, and untouched with `false` otherwise. It holds for N = 1, for N that does not divide 2^W - 1, and for fewer than 2^W pushes. |
| ParameterExchanges.UnpublishedWins | crates/riaps-dsp/src/node.rs:62-71 | If N > 1 divides 2^W - 1, a run exists in which a drain ends with a value that a push has written but not published. |
| ParameterExchanges.LatestWinsForever | crates/riaps-dsp/src/node.rs:41-71 | Every drain of every run ends with the latest published value if and only if N = 1 or N does not divide 2^W - 1. |
| ParameterExchanges.NothingSkipped | crates/riaps-dsp/src/node.rs:62-71 | While N divides 2^W or fewer than 2^W values were pushed, a drain that ends leaves exactly the published values consumed. |
| ParameterExchanges.DrainCall | crates/riaps-dsp/src/node.rs:62-71 | A whole drain, access by access, consumes everything and ends with the last queued value, or with the old target and no update if nothing was queued. |
| ParameterQueues.ParameterQueue.TryPush | crates/riaps-dsp/src/node.rs:54-58 | The value is queued and `true` returned if and only if the queue is not full. |
| ParameterQueues.ParameterQueue.DrainTo | crates/riaps-dsp/src/node.rs:62-71 | The queue ends empty and the target is the last queued value, or untouched with `false`. |
| ParameterQueues.GainNode.constructor | crates/riaps-dsp/src/node.rs:94-100 | The linear gain starts as the conversion of the given dB value, with an empty queue of 16. |
| ParameterQueues.GainNode.Process | crates/riaps-dsp/src/node.rs:108-119 | The latest published gain, or the old one, scales every sample of the shorter slice; the linear gain stays the conversion of the dB gain. |
| EmergencySlots.InvKept | crates/riaps-core/src/memory.rs:132-162 | Every access of writer and drainer, in the store order of the source, keeps the handoff invariant. |
| EmergencySlots.ExactlyOnce | crates/riaps-core/src/memory.rs:132-162 | In every interleaving the drained pairs are a prefix of the accepted ones, each with its own vtable, and at most one pair waits. |
| EmergencySlots.DrainsOldest | crates/riaps-core/src/memory.rs:149-162 | What a drain is about to return is the oldest accepted pair not yet drained. |
| EmergencySlots.NoOverwrite | crates/riaps-core/src/memory.rs:133-141 | While a push is past its vacancy check, no pair waits and no drain is under way. |
| EmergencySlots.ReadyWhenPointerSeen | crates/riaps-core/src/memory.rs:150-158 | A drain that has seen a pointer finds the flag set and the vtable written: the early exit at line 154 is unreachable. |
| EmergencySlots.PushCallAccepts | crates/riaps-core/src/memory.rs:132-143 | The accesses of an uninterrupted push hand the pair over if and only if none waits. |
| EmergencySlots.DrainCallReturns | crates/riaps-core/src/memory.rs:149-162 | A drain that loads while a pair waits goes on to return that pair and vacates the slot. |
| EmergencySlots.EmergencySlot.constructor | crates/riaps-core/src/memory.rs:113-119 | A new slot is vacant and satisfies the invariant. |
| EmergencySlots.EmergencySlot.IsVacant | crates/riaps-core/src/memory.rs:123-125 | The slot is vacant if and only if everything accepted has been drained. |
| EmergencySlots.EmergencySlot.Push | crates/riaps-core/src/memory.rs:132-143 | A pair is accepted if and only if none waits, by exactly the accesses of the protocol; a refused push changes nothing. |
| EmergencySlots.EmergencySlot.Drain | crates/riaps-core/src/memory.rs:149-162 | The waiting pair is returned and leaves the slot, or nothing changes. |

## Left out

- AdapterBuffers.AdapterBuffer.constructor: requires a capacity below usize::MAX, because allocating more fails in the source and the saturated product 2D would otherwise hide a capacity below two blocks.
- SpscSafety.BoundedFifo: and the other theorems about queued values assume that N divides 2^W or that fewer than 2^W values were pushed. `FifoForeverIffDivides` and `ApartForeverIffDivides` show that prefix order and separate slots fail without it. The counts, refusals and drop rules need no such assumption.
- EventBusObjects.EventBus.Drain: and the other methods that read slots (`Pop`, `PopSliceCopy`, `Drop`, `DrainTo`) require that the queued values are still in their slots, which every push keeps under that assumption.
- The methods of the ring, the bus, the parameter queue and the slot show one uninterrupted call; the interleavings are the step systems.
- SpscRings.SpscRing.Len: is one uninterrupted call. `SpscCounting.ObservedLength` covers a thread whose two loads are apart, and `EventBuses` the producer's own use.
- DspGraphs.DspGraphInner.Process: node states only change by processing. The parameter queue that changes a gain between blocks is modelled on its own.
- Weak memory: all atomics are sequentially consistent.
- Arithmetic on f32, `powf` and dB conversion: arbitrary functions.
- Forgotten guards (`mem::forget`), panics in callbacks, allocation failure, cache-line padding, Send and Sync.
- `GcContext`, `DropVTable` and the deallocation calls they make: raw memory behind a caller contract.
- `rcu.rs`: one atomic swap and a counter, covered by the publication protocol.
- `riaps-sys`, the performance probe, the host adapters (ALSA, CoreAudio, null) and the benchmarks: platform code.
- `reset`, `cpu_budget_us`, `node_count`, `capacity`, `is_empty` and the other accessors of one expression.
- Field widths of event payloads: nothing computes with them.
