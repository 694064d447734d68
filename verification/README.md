# Drachma: a verified model of the simulator's core

Drachma simulates an FPGA whose reconfigurable regions are loaded with task-specific bitstreams at
run time. Every clock cycle the partial reconfiguration controller (PRC), the internal
configuration access port (ICAP) and one controller per region (RRC) step against latched signals;
then the signal context publishes all outputs at once. This project models that machine, the
first-come-first-serve scheduler and the LFT+FE bitstream selector that drive the PRC, the storage
objects the controllers share, the preparation of a device for an application, and the trace
token's text format. All results are for every number of regions, every configuration and every
run.

## Layout

The model has two layers. The lower one is the source's own objects, in Dafny classes and loops:

- `Storage` - modules, the region table and the memory level, with the sharing of module objects
  between them;
- `Components` - the signal context, the ICAP, the PRC and the region controllers;
- `Scheduler`, `Selector`, `Application`, `Preparation`, `TraceToken` - scheduler, selector, the
  indexes of an application, library building, and the token parser;
- `Device` - building a device and the simulation loop.

Every method there is proved to do what a function or a predicate of the upper layer says:

- `IcapSpec`, `PrcSpec`, `RrcSpec` - one cycle of one component as a function; `None` is a fault (a
  throw, a failed assertion, or undefined behaviour), after which the simulation is over;
- `Machine` - one cycle of the composition, with histories of requested, latched, finished and
  installed transfers;
- `Protocol`, `Preservation`, `Ledger` - the joint invariant of all state machines, any number of
  controllers, and its preservation;
- `Safety`, `Progress`, `Startup`, `Execution` - the main results about runs;
- `Dispatch`, `TaskOrder`, `Decisions` - the main results about the scheduler by itself, and about
  what the PRC makes of the scheduler's and the selector's answers inside the machine.

`Device.SimulateApplication` ties the layers: the states of the objects form a run of the composed
machine in which the PRC gets the scheduler's and the selector's answers, so every result in
`Safety`, `Progress`, `Startup`, `Execution`, `TaskOrder` and `Decisions` applies to them
(`Device.FromPowerUp`); `Device.Simulate` prepares a device, simulates it if the application fits,
and concludes the first result below and the last one of the fifth.

## Main results

1. No transfer is lost, duplicated or reordered between PRC, ICAP and controllers, each stage lags
   by at most one, and every countdown has exactly the computed length (`Safety.Delivery`).
2. The components of a cycle may step in any order with the same outcome, although two bitstream
   wires are not latched (`Protocol.OrderIndependent`), because no cycle both writes and reads one
   of them (`Protocol.NoWireRace`).
3. At most one controller receives at a time and only the addressed region drives the acknowledge
   bus (`Safety.Exclusive`); the wire shows the same request at acceptance and completion
   (`Safety.SameRequest`); the completion level is always seen (`Safety.LevelSeen`).
4. In every environment a raised request is installed if and only if it is servable in the cycle
   that answers it and nothing is queued at its region before its controller's turn, and then after
   exactly the transfer latency plus 7 cycles (`Progress.ServedExactly`, `Progress.ExactLatency`).
   For the first request after power-up the condition is on the inputs alone (`Startup.FirstServed`).
   The latency is bounded in the fields of the configuration (`Configuration.Config.LatencyOfWidth`).
   With the readiness guard as coded from power-up on, no request is ever answered, since the guard
   reads a target that only an answered request sets (`Progress.CodedNeverServes`). Once some
   transfer has been latched, the coded guard serves a request if and only if the region of the
   *previous* transfer is executing, besides the conditions on the target's own region
   (`Progress.ServedAsCoded`).
5. A cycle faults if and only if the PRC or some controller meets one of its stated conditions
   (`Safety.CycleFaults`, `Safety.ControllerFaults`); for ids below 2^32 - 1 a visible request faults
   if and only if that very module is resident, and a placeholder accepts it
   (`Safety.RequestOutcome`). Because a module's running flag is never cleared, every region receives
   at most one bitstream in a whole run (`Safety.OncePerRegion`).
6. The scheduler's queue drains if and only if the graph reachable without re-entering a start node
   is acyclic (`Dispatch.DrainsExactly`), after which each task was dispatched once per distinct
   walk to it (`Dispatch.DispatchCount`), level by level (`Dispatch.LevelOrder`), with the start
   nodes, siblings and the successors of different tasks in exactly the order of the graph's lists
   and of the dispatches before (`Dispatch.StartOrder`, `Dispatch.SiblingOrder`,
   `Dispatch.ParentOrder`). In a simulation the PRC works on exactly these tasks in this order
   (`TaskOrder.WorksInOrder`), and asking for one more ends the simulation
   (`TaskOrder.OutlastsNoGraph`).
7. The selector's prebuilt indexes agree with a brute-force search of the specification map for any
   comparators (`Selector.LftFeSelector.GetBitstreamForTask`). With the comparators as coded the
   choice is most flexible and slowest; it is least flexible or fastest exactly when all candidates
   tie (`Selector.IntentOfRegion`, `Selector.IntentOfModule`), and concrete specification maps show
   both intentions fail (`Selector.MoreFlexibleChosen`, `Selector.SlowerChosen`).
8. In every run each task taken is asked about in exactly one cycle (`Decisions.AskedOnce`). The
   answer is not found if and only if every region that can run the task executes
   (`Decisions.NotFoundExactly`); a found bitstream is for a best region among those that do not
   (`Decisions.FoundFree`). The requests of a run are exactly those for the bitstreams that can be
   installed, in order (`Decisions.RequestedExactly`); any other task is dropped and the next one
   taken (`Decisions.GivenUp`).
9. The preparation's answer is right for every library of total size below 2^32 if and only if main
   memory is smaller than 65536 (`Preparation.RightExactly`, `Preparation.WrongExactly`).
10. Printing and parsing a trace token gives it back if and only if it is dependent
    (`TraceToken.PlainRoundTrip`); with a trailing comma it works for the independent ones too
    (`TraceToken.RoundTrip`).

## Where code and documentation disagree

The model follows the code in each case.

- `src/algs/bitstream/lftFeSelector.hpp:27-36` and `random.yaml:37-39`: the policy is described as
  least flexible region and fastest bitstream, but the comparators put the most flexible region and
  the slowest bitstream on top of their priority queues.
- `src/components/icap.cpp:102-111`: the comment says a controller is ready when it has nothing to
  do; the code calls it ready when the region is executing, and reads the previous target.
- `src/components/prc.cpp:135-139`: the comment says the scheduler is asked to choose a task again
  when one cannot be scheduled at once; the scheduler has already moved on, so that task is dropped.
- `src/storage/rrModule.cpp:113-151`: `isRunning` suggests a module that is executing now; the flag
  stays set after the execution ends.
- `src/storage/storageUnit.cpp:24-26`: the size accessor narrows a 32-bit size to 16 bits.
- `src/traceToken.cpp:3-19` and `:60-67`: the printed form of an independent token is read back as a
  dependent one.

## Model

| member | source | states |
|---|---|---|
| Components.SignalContext.RefreshContext | src/signalContext.cpp:89-422 | Publishes all outputs at once; the acknowledge line is high exactly when some controller raises its own. |
| Components.Icap.LatchBitstream | src/components/icap.cpp:126-156 | The PRC's scheduled bitstream becomes the target, its region alone is addressed and the level rises; a fault outside the request bus. |
| Components.Icap.BeginTransfer | src/components/icap.cpp:163-181 | The request is withdrawn and the countdown starts at the target's latency. |
| Components.Icap.Step | src/components/icap.cpp:58-208 | One ICAP cycle is the four-state handshake machine's, with the countdown's wrap; false exactly on a failed assertion or an address outside the request bus. |
| Components.Prc.TakeTask | src/components/prc.cpp:111-118 | Takes the scheduler's front task and advances its queue; a fault exactly on an empty queue. |
| Components.Prc.ScheduleBitstream | src/components/prc.cpp:120-151 | Takes the selector's answer for its task and the regions executing now: back to the scheduler when nothing is found, a request, or enqueueing as coded; a fault exactly when the selector throws. What this means over a run is in `Decisions`. |
| Components.Prc.Step | src/components/prc.cpp:82-157 | One PRC cycle takes the scheduler's front task or the selector's brute-force answer and moves the request line accordingly; the scheduler's queue advances only when a task is taken. |
| Components.RrController.Handshake | src/components/prrLevelController.cpp:80-99 | A task is pushed on the first cycle of a high enqueue line only, and both acknowledgements are withdrawn with their requests. |
| Components.RrController.SpecForTask | src/components/prrLevelController.cpp:12-19 | The installed bitstream's first entry of the requested type, with no earlier one of that type; none where the source throws. |
| Components.RrController.StartModule | src/components/prrLevelController.cpp:182-185 | Sets speed and starts a module; refused exactly when the module was stepped before. |
| Components.RrController.BeginTask | src/components/prrLevelController.cpp:176-185 | Starts the entry for a task type on a region's module: a fault when there is no such entry or the speed can no longer be set; no other region changes. |
| Components.RrController.StepModule | src/components/prrLevelController.cpp:101-135 | Steps an executing resident module in place, visible in table and library, and no other region. |
| Components.RrController.Prelude | src/components/prrLevelController.cpp:80-135 | Handshakes and the resident module's own cycle, before any action. |
| Components.RrController.PopTask | src/components/prrLevelController.cpp:166-189 | Takes a queued task only when the resident module is idle, and starts it on that module. |
| Components.RrController.OfferTransfer | src/components/prrLevelController.cpp:267-290 | The acceptance decision on a region: a fault on the same module id, a refusal while it runs, otherwise the transfer state with its acknowledgement. |
| Components.RrController.TakeRequest | src/components/prrLevelController.cpp:251-290 | Accepts the ICAP's request on the region it names unless that module is running; a fault when it is already resident or the region has no entry. |
| Components.RrController.Install | src/components/prrLevelController.cpp:342 | The region's entry becomes a reference to the library's object; only that region changes. |
| Components.RrController.FetchModule | src/components/prrLevelController.cpp:331-342 | Finds the accepted module in main memory, or faults, and installs that very object. |
| Components.RrController.StartInstalled | src/components/prrLevelController.cpp:344-359 | Records the transferred bitstream as installed and starts its task, back in the idle state. |
| Components.RrController.CompleteTransfer | src/components/prrLevelController.cpp:324-365 | At the low level: the accepted module is fetched from main memory, put into its region and started with its task's entry. |
| Components.RrController.ActIdle | src/components/prrLevelController.cpp:162-311 | The idle state serves the action queue first and the ICAP's request only with an empty queue. |
| Components.RrController.Act | src/components/prrLevelController.cpp:156-370 | The action of the controller's state on the one region it names; table and library stay linked. |
| Components.RrController.Step | src/components/prrLevelController.cpp:65-375 | A whole controller cycle on the shared storage objects equals the functional one on region values. |
| Storage.RrModule.SetSpeed | src/storage/rrModule.cpp:77-83 | Refused exactly after the module's first simulated step, and then without effect. |
| Storage.RrModule.BeginExecution | src/storage/rrModule.cpp:113-125 | Execution state, running flag and latency are set; the timestep is kept. |
| Storage.RrModule.Step | src/storage/rrModule.cpp:128-146 | Counts one timestep; on the step past the latency the module turns idle and the timestep resets. |
| Storage.ReconfigurableRegions.InsertModule | src/storage/reconfigurableRegions.cpp:34-41 | The entry of the module's own region refers to it; all others are kept. |
| Storage.ReconfigurableRegions.GetModuleFromRegion | src/storage/reconfigurableRegions.cpp:45-47 | The region's entry, none for a region without one. |
| Storage.MemoryLevel.InsertModule | src/storage/memoryLevel.cpp:70-83 | Filed under its own two ids; every other entry of every region is kept. |
| Storage.MemoryLevel.GetModule | src/storage/memoryLevel.cpp:91-93 | The module filed under the two ids, none when there is none. |
| Storage.MemoryLevel.GetSize | src/storage/storageUnit.cpp:24-26 | The size as the 16-bit accessor shows it. |
| Storage.CurrentChanged | src/components/prrLevelController.cpp:101-135 | Changing the object in one region's entry changes that region alone, and its library exactly when the two share the object. |
| Storage.EntryReplaced | src/components/prrLevelController.cpp:339-342 | Pointing an entry at a library object changes that region's resident and nothing else. |
| Modules.ExecutionLatencyBounds | src/storage/rrModule.cpp:120 | The latency is the least number of simulation cycles covering the module's cycles at its speed. |
| RrcSpec.SpecIndex | src/components/prrLevelController.cpp:12-19 | The first position of a task type, the length exactly when it does not occur. |
| RrcSpec.SpecForTaskExactly | src/components/prrLevelController.cpp:12-19 | The entry found is in the list, has the type and has no earlier one of that type, and only such an entry is found; none exactly when no entry has the type. |
| Configuration.Config.TransferLatencyBounds | src/components/icap.cpp:267-272 | The latency is the streaming time divided by the simulation's rate, rounded down. |
| Configuration.Config.LatencyOfWidth | src/components/icap.cpp:267-272 | For every width w and nonzero bus: n * bus * simulation speed <= bits * ICAP speed < (n + 1) * bus * simulation speed, the bits being 8 * w modulo 2^32. |
| Configuration.Config.ExampleLatency | src/components/icap.cpp:270 | The source's own figures, 64 at 200 MHz over 32 bits at 100 MHz, give 32. |
| RrcSpec.StepIsLocal | src/components/prrLevelController.cpp:65-375 | A cycle whose request names the controller's own region reads and changes that region only. |
| RrcSpec.LocalMoves | src/components/prrLevelController.cpp:94-99 | How state, acknowledgement and accepted request move in every controller cycle. |
| RrcSpec.LocalResident | src/components/prrLevelController.cpp:324-342 | The resident module changes exactly when a transfer completes, and then to the accepted one. |
| Protocol.NoWireRace | src/components/prc.cpp:124 | In every state of the invariant no cycle both writes and reads an unlatched bitstream wire. |
| Protocol.OwnRegion | src/components/prrLevelController.cpp:256-267 | A controller that reads the transfer wire finds a request for its own region. |
| Protocol.RunBlended | src/device.cpp:155-167 | Midway through any order, the components that have stepped did so as from the cycle's start. |
| Protocol.AdvancesTurns | src/components/prrLevelController.cpp:65-375 | Every cycle moves all handshakes by the control rules alone. |
| Protocol.RunSchedule | src/device.cpp:155-167 | Any schedule faults exactly when some component would by itself, and otherwise advances every component as from the cycle's start. |
| Protocol.OrderIndependent | src/device.cpp:155-167 | Stepping PRC, ICAP and controllers in any order gives the outcome of the source's order. |
| Protocol.CycleAdvances | src/device.cpp:155-167 | A cycle faults exactly when a component does; otherwise all advance simultaneously. |
| Preservation.KeepsLinks | src/device.cpp:150-180 | Every fault-free cycle keeps the joint invariant of PRC, ICAP, all controllers and all regions. |
| Preservation.KeepsIcapRrc | src/components/icap.cpp:119-201 | Every cycle keeps the handshake between the ICAP and each controller and the completion level. |
| Preservation.KeepsRegion | src/components/prrLevelController.cpp:101-359 | Every cycle keeps each controller consistent with the module its entry shares with the library. |
| Preservation.BusFromTarget | src/signalContext.cpp:343-364 | A high acknowledge bus comes from the addressed region, while the level is high. |
| Ledger.InstallsAwaited | src/components/prrLevelController.cpp:324-359 | A controller installs exactly in the cycle after its countdown ended, and installs that request. |
| Ledger.AwaitingMoves | src/components/icap.cpp:189-201 | A transfer is awaited exactly from the cycle that ends its countdown to the next one. |
| Ledger.ResidentMoves | src/storage/reconfigurableRegions.cpp:34-41 | A region's resident module changes only by the awaited install. |
| Ledger.KeepsBalanced | src/device.cpp:150-180 | Every cycle keeps the relation between the four histories, the countdown and the region table. |
| Ledger.KeepsPlaced | src/storage/reconfigurableRegions.cpp:34-41 | Every cycle keeps the region table equal to the installed bitstreams, one region each. |
| Ledger.KeepsTimed | src/components/icap.cpp:189-201 | Every cycle keeps elapsed plus remaining countdown at the computed latency. |
| Safety.RunReachable | src/device.cpp:150-180 | Every state of every run satisfies the joint invariant. |
| Safety.InitialReachable | src/device.cpp:98-146 | The power-up state satisfies the joint invariant. |
| Safety.Delivery | src/components/prc.cpp:142-157 | Installed, finished, latched and requested transfers are prefixes of each other lagging by at most one; each countdown took its latency plus one cycles. |
| Safety.Exclusive | src/signalContext.cpp:343-364 | At most one controller is receiving; the acknowledge bus is high exactly when the addressed region drives it. |
| Safety.SameRequest | src/components/prrLevelController.cpp:256-345 | Acceptance and completion read the same request, whose region is the controller's own. |
| Safety.LevelSeen | src/components/prrLevelController.cpp:324-359 | Once a countdown ends the level is low and the very next cycle installs, whatever the latency, before the level can rise again. |
| Safety.InstallsOnlyFinished | src/components/icap.cpp:189-201 | Every install is of the request whose countdown has just ended. |
| Safety.NoLeftoverAck | src/components/prc.cpp:120-157 | An acknowledgement the PRC sees belongs to its pending request, and the scheduled bitstream is unchanged until the ICAP latches it. |
| Safety.IcapNeverFaults | src/components/icap.cpp:119-135 | The assertion in the acknowledge state never fails and no access leaves the request bus. |
| Safety.ControllerFaults | src/components/prrLevelController.cpp:166-370 | A controller faults if and only if it has a queued task and its module is idle, or, with nothing queued, it is offered the module it already holds; completing a transfer never faults. Ids are compared as 32-bit numbers. |
| Safety.RequestOutcome | src/components/prrLevelController.cpp:251-290 | For ids below 2^32 - 1 a visible request faults if and only if the region holds that very library module, and a region with its placeholder accepts and enters the transfer state. |
| Safety.CycleFaults | src/device.cpp:155-167 | A cycle ends the simulation if and only if the PRC wants a task of an empty queue, the selector throws, the PRC is in its enqueue state, or a controller meets one of its two conditions. |
| Safety.OncePerRegion | src/storage/rrModule.cpp:113-151 | In a whole run every region receives at most one bitstream, and the region table shows exactly the installed ones. |
| Safety.ExecutingMatches | src/components/prrLevelController.cpp:101-135 | The executing signal of a region is high exactly when the module its entry refers to is executing. |
| Safety.OnlyOwnRegion | src/components/prrLevelController.cpp:65-375 | Stepping one controller, even amid a cycle, leaves every other region, controller, the PRC and the ICAP untouched. |
| Progress.ExactLatency | src/components/icap.cpp:85-201 | A servable request to a region with nothing queued before its turn is installed in exactly the cycle given by the transfer latency plus seven, and not before. |
| Progress.NeverServed | src/components/icap.cpp:106-111 | A request that is not servable when it is answered, or whose region gets a task queued before its turn, is not installed in any later cycle. |
| Progress.ServedExactly | src/components/icap.cpp:91-118 | In every environment a raised request is ever installed if and only if the guard lets the ICAP acknowledge, the target's module was never started nor is being transferred, and nothing is queued there before its turn. |
| Progress.CodedNeverServes | src/components/icap.cpp:102-111 | With the guard as coded from power-up on, the first request cannot be answered: nothing is ever latched or installed in any run. |
| Progress.ServedAsCoded | src/components/icap.cpp:102-111 | Once some transfer has been latched: a request answered by the coded guard is installed if and only if the previously addressed region is executing, the target never held a started module, and nothing is queued there before its turn. |
| Startup.PowerUp | src/components/prc.cpp:91-118 | After power-up the PRC takes its first task in the second cycle and asks about it in the third, while the ICAP waits. |
| Startup.StaysUnasked | src/components/prrLevelController.cpp:80-160 | In the first three cycles no transfer is accepted and no module started; a region has a task queued exactly if its line was high. |
| Startup.FirstServed | src/components/icap.cpp:85-201 | The first request is ever installed if and only if the guard is open in the fourth cycle and the region's enqueue line is low in the first seven; then in exactly cycle latency plus 10. |
| Execution.StartsExecution | src/components/prrLevelController.cpp:344-359 | The completing cycle starts the installed module from timestep 0 with the latency of its task's first entry. |
| Execution.ExecutionStep | src/components/prrLevelController.cpp:124-135 | One cycle of an executing region counts one timestep or ends the execution, whatever else happens around it. |
| Execution.TakesFrontTask | src/components/prrLevelController.cpp:166-189 | Taking a queued task off an idle module fails exactly without a type, without an entry for it, or after the module was stepped; otherwise the front task alone leaves and its first entry starts, for the cycles that just cover it. |
| Execution.ExecutionSpan | src/storage/rrModule.cpp:128-146 | From the install on the executing signal is high for exactly the latency plus one cycles, then the module is idle and its timestep reset. |
| Execution.ExecutionExactly | src/storage/rrModule.cpp:113-146 | From an install on, with n simulation cycles just covering the cycles of the installed bitstream's first entry for the requested type, the executing signal is high for exactly n + 1 cycles; at a speed no higher than the simulation's that exceeds the task's cycles. |
| Execution.SlowerThanSimulation | src/yaml/application.cpp:78-81 | A module no faster than the simulation is busy for more cycles than its task takes. |
| Execution.QueueDelivers | src/components/prrLevelController.cpp:80-92 | For every waveform of the enqueue line and in all states: tasks taken followed by the queue are the tasks at the rising edges, in order. |
| Scheduler.FcfsScheduler.constructor | src/algs/task/fcfsScheduler.cpp:3-6 | The queue starts with the start nodes. |
| Scheduler.FcfsScheduler.Initialize | src/algs/task/fcfsScheduler.cpp:34-43 | All start nodes enter queue and lookup. |
| Scheduler.FcfsScheduler.GetCurrentTask | src/algs/task/fcfsScheduler.cpp:27-29 | The front of the queue, with its metadata. |
| Scheduler.FcfsScheduler.PrepareNextTask | src/algs/task/fcfsScheduler.cpp:54-72 | The front leaves and its successors that are not start nodes join, in the order `Dispatch.SiblingOrder` and `Dispatch.ParentOrder` state on the graph. |
| Scheduler.FcfsScheduler.RemoveCurrentTask | src/algs/task/fcfsScheduler.cpp:74-76 | The front leaves the queue. |
| Dispatch.SchedulerFollows | src/algs/task/fcfsScheduler.cpp:54-72 | The scheduler's queue and dispatches are, entry by entry, the ends of walks of the graph. |
| Dispatch.MeasureStep | src/algs/task/fcfsScheduler.cpp:54-76 | One dispatch lowers the total walk count of the queued tasks by exactly one. |
| Dispatch.Drains | src/algs/task/fcfsScheduler.cpp:54-76 | On an acyclic graph the queue drains after exactly that many dispatches, which are the walks, each once, by length. |
| Dispatch.DrainsExactly | src/algs/task/fcfsScheduler.cpp:54-76 | The queue ever drains if and only if no walk meets a task twice. |
| Dispatch.DispatchCount | src/algs/task/fcfsScheduler.cpp:54-76 | Each task is dispatched as often as there are distinct walks from a start node to it. |
| Dispatch.LevelOrder | src/algs/task/fcfsScheduler.cpp:54-76 | On any graph dispatches never get shorter and the queue spans at most two consecutive lengths. |
| Dispatch.AllGrown | src/algs/task/fcfsScheduler.cpp:54-76 | Dispatched and queued walks are always the start nodes followed by the extensions of the dispatched ones, dispatch by dispatch. |
| Dispatch.StartOrder | src/algs/task/fcfsScheduler.cpp:34-43 | The start nodes come first, in the graph's order. |
| Dispatch.SiblingOrder | src/algs/task/fcfsScheduler.cpp:59-68 | After any number of dispatches, the extensions of a dispatched walk stand in the order of the graph's successor list. |
| Dispatch.ParentOrder | src/algs/task/fcfsScheduler.cpp:54-76 | Extensions of an earlier dispatch stand before those of a later one. |
| Dispatch.WalkExactly | src/algs/task/fcfsScheduler.cpp:54-76 | Walks follow the graph's successor lists from a start node and never enter a start node again. |
| Dispatch.LastAfterPredecessors | src/algs/task/fcfsScheduler.cpp:54-76 | The last dispatch of a task comes after every dispatch of each predecessor. |
| Dispatch.WalksArePaths | src/algs/task/fcfsScheduler.cpp:34-43 | With no edge into a start node the dispatched walks are the graph's paths. |
| TaskOrder.WorksInOrder | src/components/prc.cpp:111-118 | The tasks the PRC works on in a run have, one by one, the key of the scheduler's dispatch and the type the graph's metadata give for it. |
| TaskOrder.OutlastsNoGraph | src/components/prc.cpp:111-118 | On an acyclic graph no run takes more tasks than there are dispatches, and the PRC's next question after the last one faults. |
| Decisions.PrcMovesAt | src/components/prc.cpp:82-157 | In every cycle of a run: which state follows, and which request, if any, is added, in terms of the answers alone. |
| Decisions.AskedOnce | src/components/prc.cpp:111-151 | Each task taken is asked about in exactly one cycle, the next one. |
| Decisions.GivenUp | src/components/prc.cpp:135-140 | When nothing is found, or the region is being given another module, nothing is requested, the next dispatch is taken and asked about, and the task is dropped. |
| Decisions.RequestedExactly | src/components/prc.cpp:120-151 | The requests of a run are, in order, those for the bitstreams found that are neither installed nor blocked, each with its task's type. |
| Decisions.NotFoundExactly | src/algs/bitstream/lftFeSelector.cpp:228-253 | In a simulation the PRC gets no bitstream for a task of a known type if and only if the modules in all regions that can run it execute. |
| Decisions.FoundFree | src/algs/bitstream/lftFeSelector.cpp:190-253 | A found bitstream implements the task's type, is the best of its region, and its region is a best one among those whose modules do not execute. |
| Application.GetRrTaskCapabilities | src/specs/application.cpp:57-85 | Lists exactly the modules implementing each type in each region; an error exactly when a region has no module or a module no task. |
| Application.GetRrBitstreamSizes | src/specs/application.cpp:32-51 | Each region's size is one of its modules'; an error exactly when a region has none. |
| PriorityQueue.Top | src/algs/bitstream/lftFeSelector.cpp:240 | An entry that no other entry outranks. |
| PriorityQueue.Pop | src/algs/bitstream/lftFeSelector.cpp:248 | Removes the top entry, once, and keeps all others. |
| Selector.GetBsSpeedMap | src/algs/bitstream/lftFeSelector.cpp:52-79 | The queue of a type and region holds exactly the modules and speeds that implement the type there. |
| Selector.GetRrTaskFlexibilities | src/algs/bitstream/lftFeSelector.cpp:88-118 | Each region's number of distinct task types. |
| Selector.GetLftRrMap | src/algs/bitstream/lftFeSelector.cpp:130-155 | One entry per capable region, keyed by its flexibility; a failed lookup exactly when a listed region has no specification. |
| Selector.LftFeSelector.constructor | src/algs/bitstream/lftFeSelector.cpp:170-180 | From a capability index of the same specification map no lookup fails and the indexes describe that map. |
| Selector.LftFeSelector.GetRrForTask | src/algs/bitstream/lftFeSelector.cpp:228-253 | An idle capable region that no other idle capable one outranks, none exactly when all are busy, an error exactly when there are none. |
| Selector.LftFeSelector.GetBitstreamForTask | src/algs/bitstream/lftFeSelector.cpp:190-220 | Agrees with the brute-force search of the specification map. |
| Selector.AnswerKinds | src/algs/bitstream/lftFeSelector.cpp:190-253 | An error exactly for a missing type or one no module implements, a bitstream exactly when an idle region can run the type, and then one that implements it. |
| Selector.FoundImplements | src/algs/bitstream/lftFeSelector.cpp:190-220 | A bitstream that is found implements the type, and some idle region is capable of it. |
| Selector.NotFoundExactly | src/algs/bitstream/lftFeSelector.cpp:228-253 | Nothing is found if and only if the type is known and every region that can run it is busy. |
| Selector.FoundBest | src/algs/bitstream/lftFeSelector.cpp:190-220 | A found bitstream is the best one of the best idle region. |
| Selector.IntentOfRegion | src/algs/bitstream/lftFeSelector.hpp:32-36 | The coded region choice is least flexible if and only if all idle capable regions are equally flexible. |
| Selector.IntentOfModule | src/algs/bitstream/lftFeSelector.hpp:27-31 | The coded bitstream choice is fastest if and only if all entries of the region are equally fast. |
| Selector.MoreFlexibleChosen | src/algs/bitstream/lftFeSelector.hpp:32-36 | On a concrete map with two idle regions the coded comparator chooses the more flexible one and only it, the intended one the other. |
| Selector.BusyPassedOver | src/algs/bitstream/lftFeSelector.cpp:239-252 | On the same map a busy region is passed over for the other one, and with both busy none is chosen. |
| Selector.SlowerChosen | src/algs/bitstream/lftFeSelector.hpp:27-31 | On a concrete region with two modules the coded comparator chooses the slower one and only it, the intended one the faster. |
| Selector.CodedOrders | src/algs/bitstream/lftFeSelector.hpp:27-36 | The two comparators are strict orders, as a priority queue needs. |
| TraceToken.DecValue | src/traceToken.cpp:9-16 | Reading the printed digits of a number gives the number. |
| TraceToken.Parse | src/traceToken.cpp:30-68 | The step-by-step parser is the functional one, error cases included. |
| TraceToken.RoundTrip | src/traceToken.cpp:3-68 | Every dependent token, and every independent one with a trailing comma, survives printing and parsing. |
| TraceToken.PlainRoundTrip | src/traceToken.cpp:60-67 | Without the comma the round trip holds if and only if the token is dependent; otherwise the execution time reappears as a dependency. |
| TraceToken.NumberField | src/traceToken.cpp:42-64 | A printed number, or its negation, reads as its value modulo 2^32 within the 64-bit range and is an error outside it. |
| TraceToken.PrintedToken | src/traceToken.cpp:3-19 | Two concrete tokens as they are printed. |
| Preparation.PrepareAppResources | src/device.cpp:44-96 | Main memory holds exactly the specification map's modules, the region table one placeholder per region, and the required space is the sum of all sizes modulo 2^32; for a sum below 2^32 and a memory below 65536 the result is true exactly when the sum fits. All objects in the two tables are new. |
| Preparation.StoredTotal | src/device.cpp:62-77 | That sum is the total size of the modules main memory holds. |
| Preparation.FillLibrary | src/device.cpp:70-76 | One region's modules are created and filed in main memory; other regions are kept. |
| Preparation.CountRegion | src/device.cpp:62-67 | Space and census of one region are added, the space modulo 2^32. |
| Preparation.AddRegion | src/device.cpp:62-64 | One region adds its module count times its bitstream size to the total. |
| Preparation.RightExactly | src/device.cpp:95 | The answer is right for every total below 2^32 if and only if the memory's size is below 65536. |
| Preparation.WrongExactly | src/device.cpp:95 | For one memory and one total: a wrong no exactly between what 16 bits show and the real size, a wrong yes exactly when the total wraps to something 16 bits hold. |
| Preparation.WrongAnswers | src/storage/storageUnit.cpp:24-26 | Concrete inputs for both: a memory of size 65536 refuses a library of size 1, an empty one accepts one of size 2^32. |
| Preparation.Compare | src/device.cpp:95 | The comparison answers by 16-bit size and 32-bit total; below both limits, exactly whether the total fits. |
| Device.Prepare | src/device.cpp:22-146 | A prepared device has the given speeds, bus width, graph and comparators and is in the composed machine's initial state; the answer is the coded comparison of main memory with the library's total size; everything a simulation may change is new. |
| Device.Simulate | src/device.cpp:22-181 | If the application fits, the prepared device is simulated for `stop` cycles, at most 1000, or up to a fault; in every environment the run is a simulation from power-up, its transfers are delivered in order, and no region receives more than one bitstream. If not, nothing is simulated. |
| Device.PreparedRegions | src/device.cpp:52-77 | The prepared storage objects are the composed machine's initial regions: every entry its own placeholder, apart from the library. |
| Device.BuildPrc | src/components/prc.cpp:65-79 | The PRC with its scheduler on the start nodes and a selector whose indexes describe the specification map. |
| Device.FoundValid | src/components/prc.cpp:121-124 | What the selector finds is filed under its own ids and implements the PRC's task, as the protocol results require. |
| Device.Device.SimulateCycle | src/device.cpp:155-167 | One iteration of the loop on the objects is one cycle of the composed machine, with the scheduler's front task and the selector's answer for the regions executing then; false exactly when that cycle faults. |
| Device.Device.StepControllers | src/device.cpp:162-164 | After the loop all controllers have stepped, or the cycle faults. |
| Device.Device.Publish | src/device.cpp:167 | Publishing completes the composed machine's cycle. |
| Device.Device.SimulateApplication | src/device.cpp:98-181 | The loop's states form a run of `stop` cycles, at most 1000, under the given environment and with the scheduler's and the selector's answers; it ends early only by a fault. |
| Device.FromPowerUp | src/device.cpp:98-181 | A run of a prepared device is a simulation from power-up with the scheduler's and the selector's answers. |

## Left out

- Console output, including all status strings: no effect on state.
- Command line, wallet, file handling and YAML decoding: third-party parsing and file access. What the decoder yields is a precondition (`Preparation.Decoded`): specifications carry the ids they are filed under, and a region's modules share one size.
- Cache levels and replacement algorithms: nothing in the simulation uses them.
- Static regions: they are filled and never read.
- Floating-point rounding: speeds are exact positive rationals. The conversions of latencies to 32 bits are undefined when they overflow, so latencies are unbounded here; a zero-width bus, a division by zero in the source, gets latency 0, and so does a module whose speed was never set.
- The task graph library: a graph is a finite map from a key to its successors, each listed once, with a list of start nodes and the "type" metadata of every node.
- Priority queues: which of several equal entries is on top is not part of any contract of `PriorityQueue`.
- Components.SignalContext.RefreshContext: the PRC acknowledge bus, the start and enqueue lines, the two memory counters, the ICAP's target region and the bitstream ids are not published, because no modelled component reads them as latched signals; where the source's readers see them they are free inputs.
- Storage.RrModule.BeginExecution: the stored execution time, which only status output reads, and the conversion of the latency to 32 bits are absent.
- Storage.ReconfigurableRegions.GetModuleFromRegion: on a miss the source also leaves a null entry behind; the lookup's null result is a fault at once, so no later step sees that entry.
- Storage.MemoryLevel.GetModule: likewise for the null entries a missed lookup leaves in the module table.
- The presence checks of the region table and the memory level: nothing in the simulation calls them.
- Components.RrController.ActIdle: the branch for the start line is absent; the PRC never raises that line.
- Components.RrController.Act: the wait state is absent; nothing enters it.
- Components.Prc.Step: the PRC's commented-out states are absent; the two wires the source never connects (the ICAP's target region and the controllers' bitstream ids) are free inputs of every cycle, and the enqueue state faults as the source throws there.
- Components.Icap.Step: the outcome of the readiness guard is a free input, because on a first request it reads a bitstream that does not exist yet; `Progress.ServedAsCoded` instantiates it as coded. The memory counter stays 0 and is not modelled; modules come from main memory.
- Components.RrController.Step: the start line, which the PRC never raises, and the wait state, which nothing enters, are absent. The task type travels with the request, because the source reads a member that the ICAP's path never sets. The enqueue line and the task on it are free inputs, because nothing drives them.
- Bitstream and task pointers are captured when the signal context is built and reallocated later. They are modelled as wires that show their owner's current value, which is what the components rely on.
- A null pointer handed out by a region table or memory level without an entry is a fault.
- Stall counters are always 0. Placeholder modules start vacant and not running, although one constructor leaves those members unset.
- Device.Prepare: regions are numbered from 0 without gaps, as the controllers are; with gaps the source would reach regions that have no controller.
- Device.Device.SimulateApplication: the source builds the scheduler when it wires up the PRC for a simulation, so a queue that holds just the start nodes is required here.
- Scheduler.FcfsScheduler.GetCurrentTask: asking an empty queue is a precondition here; the PRC faults in that case.
- Unconditional liveness: a request that is not servable parks the ICAP for good, which `Progress.NeverServed` states.
