/** How long an execution keeps a region busy, and what the enqueue line delivers. */
module Execution {
  import opened Types
  import opened Modules
  import opened Configuration
  import opened Machine
  import opened Protocol
  import opened Preservation
  import opened Ledger
  import opened Safety
  import RrcSpec

  function CurrentAt(s: State, i: nat): Module
    requires WellSized(s.core) && i < |s.core.ctrls|
  {
    Current(s.core.regions[i])
  }

  lemma StartsModule(c: RrcSpec.Rrc, own: Region, inp: RrcSpec.Inputs, wire: Option<Request>, sim: Speed)
    requires c.st == RrcSpec.State.Transfer && !inp.icapTrans && wire.Some?
    ensures var r, id, spec := RrcSpec.Local(c, own, inp, wire, sim), c.transferReq.bs.id,
                               RrcSpec.SpecForTask(wire.value.bs, wire.value.typeId);
            r.Some? ==>
              && r.value.0.executing && r.value.0.installed == wire.value && spec.Some?
              && id in RrcSpec.Advance(own).library
              && Current(r.value.1) == RrcSpec.Advance(own).library[id].(speed := spec.value.speed, st := Exec,
                   running := true, latency := ExecutionLatency(spec.value.cycles, sim, spec.value.speed))
  {
    var c1, own1 := RrcSpec.Executed(RrcSpec.Handshakes(c, inp), own), RrcSpec.Advance(own);
    if c.transferReq.bs.id in own1.library {
      RrcSpec.BeginStarts(c1.(installed := wire.value, st := RrcSpec.State.Idle),
                  own1.(resident := Library(c.transferReq.bs.id)), wire.value.typeId, sim);
    }
  }

  /** The completing cycle starts the installed module from timestep 0 with its task's latency. */
  lemma StartsExecution(cfg: Config, s: State, inp: Inputs, t: State, i: nat)
    requires Links(cfg, s) && SignalsFor(s.core, s.sig, inp) && Advances(cfg, s, inp, t)
    requires i < |s.core.ctrls| && InstallsNow(s.core, t.core, i)
    ensures t.core.ctrls[i].executing
    ensures var m, r := CurrentAt(t, i), t.core.ctrls[i].installed;
            var spec := RrcSpec.SpecForTask(r.bs, r.typeId);
            && m.st == Exec && m.timestep == 0 && m.id == r.bs.id && spec.Some?
            && m.latency == ExecutionLatency(spec.value.cycles, cfg.simSpeed, spec.value.speed)
  {
    assert IcapRrc(cfg, s.core, i) && RegionOk(cfg, s.core.ctrls[i], s.core.regions[i], i);
    StartsModule(s.core.ctrls[i], s.core.regions[i], RrcInputs(s.sig, inp, i), s.core.icap.target, cfg.simSpeed);
    assert RrcNext(cfg, s.core, s.sig, inp, i) == Some((t.core.ctrls[i], t.core.regions[i]));
  }

  /** One cycle of an executing region, whatever else happens around it. */
  lemma ExecutionStep(cfg: Config, s: State, inp: Inputs, t: State, i: nat)
    requires Links(cfg, s) && SignalsFor(s.core, s.sig, inp) && Advances(cfg, s, inp, t)
    requires i < |s.core.ctrls| && CurrentAt(s, i).st == Exec
    ensures var m, m' := CurrentAt(s, i), CurrentAt(t, i);
            if m.timestep < m.latency
            then m'.st == Exec && m'.timestep == m.timestep + 1 && m'.latency == m.latency
            else m'.st == ModuleState.Idle && m'.timestep == 0 && !t.core.ctrls[i].executing
  {
    var c, own, rin := s.core.ctrls[i], s.core.regions[i], RrcInputs(s.sig, inp, i);
    assert IcapRrc(cfg, s.core, i) && RegionOk(cfg, c, own, i);
    assert RrcNext(cfg, s.core, s.sig, inp, i) == Some((t.core.ctrls[i], t.core.regions[i]));
    var m := Current(own);
    var c1, own1 := RrcSpec.Executed(RrcSpec.Handshakes(c, rin), own), RrcSpec.Advance(own);
    assert Current(own1) == StepModule(m);
    Untouched(c1, own1, rin, s.core.icap.target, cfg.simSpeed);
  }

  /** A controller never touches a module that was started and cannot be started again. */
  lemma Untouched(c: RrcSpec.Rrc, region: Region, inp: RrcSpec.Inputs, wire: Option<Request>, sim: Speed)
    requires c.st != RrcSpec.State.Transfer && Current(region).running && Current(region).inSim
    ensures var r := RrcSpec.Act(c, region, inp, wire, sim);
            r.Some? ==> r.value.1 == region && r.value.0.executing == c.executing
  {
  }

  /** `j` cycles into an execution of the given latency, or just after its end. */
  predicate Executing(s: State, i: nat, j: nat, latency: nat) {
    && WellSized(s.core) && i < |s.core.ctrls| && |s.sig.executing| == |s.core.ctrls|
    && (s.sig.executing[i] <==> j <= latency)
    && var m := CurrentAt(s, i);
       if j <= latency then m.st == Exec && m.timestep == j && m.latency == latency
       else m.st == ModuleState.Idle && m.timestep == 0
  }

  lemma ExecutingStarts(cfg: Config, s: State, inp: Inputs, t: State, i: nat)
    requires Reachable(cfg, s) && ValidInputs(cfg, s, inp) && Advances(cfg, s, inp, t) && Reachable(cfg, t)
    requires i < |s.core.ctrls| && InstallsNow(s.core, t.core, i)
    ensures Executing(t, i, 0, CurrentAt(t, i).latency)
  {
    StartsExecution(cfg, s, inp, t, i);
    assert RegionOk(cfg, t.core.ctrls[i], t.core.regions[i], i);
  }

  lemma ExecutingStep(cfg: Config, s: State, inp: Inputs, t: State, i: nat, j: nat, latency: nat)
    requires Reachable(cfg, s) && ValidInputs(cfg, s, inp) && Advances(cfg, s, inp, t) && Reachable(cfg, t)
    requires Executing(s, i, j, latency) && j <= latency
    ensures Executing(t, i, j + 1, latency)
  {
    ExecutionStep(cfg, s, inp, t, i);
    assert RegionOk(cfg, t.core.ctrls[i], t.core.regions[i], i);
  }

  lemma SpanStarts(cfg: Config, run: seq<State>, inps: seq<Inputs>, i: nat)
    requires IsRun(cfg, run, inps) && Reachable(cfg, run[0]) && |run| > 1
    requires i < |run[0].core.ctrls| == |run[1].core.ctrls| && InstallsNow(run[0].core, run[1].core, i)
    ensures WellSized(run[1].core) && Executing(run[1], i, 0, CurrentAt(run[1], i).latency)
  {
    RunReachable(cfg, run, inps, 1);
    ExecutingStarts(cfg, run[0], inps[0], run[1], i);
  }

  lemma SpanContinues(cfg: Config, run: seq<State>, inps: seq<Inputs>, i: nat, k: nat, j: nat, latency: nat)
    requires IsRun(cfg, run, inps) && Reachable(cfg, run[0]) && 0 < k < |run|
    requires Executing(run[k - 1], i, j, latency) && j <= latency
    ensures Executing(run[k], i, j + 1, latency)
  {
    RunReachable(cfg, run, inps, k);
    ExecutingStep(cfg, run[k - 1], inps[k - 1], run[k], i, j, latency);
  }

  /** From the cycle that installs a bitstream on, its execution keeps `prr_executing_` high for
      exactly its latency plus one cycles, then leaves the module idle with its timestep reset. */
  lemma {:induction false} ExecutionSpan(cfg: Config, run: seq<State>, inps: seq<Inputs>, i: nat, k: nat)
    requires IsRun(cfg, run, inps) && Reachable(cfg, run[0]) && 0 < k < |run|
    requires i < |run[0].core.ctrls| == |run[1].core.ctrls| && InstallsNow(run[0].core, run[1].core, i)
    requires WellSized(run[1].core) && k <= CurrentAt(run[1], i).latency + 2
    ensures Executing(run[k], i, k - 1, CurrentAt(run[1], i).latency)
    decreases k
  {
    if k == 1 {
      SpanStarts(cfg, run, inps, i);
    } else {
      ExecutionSpan(cfg, run, inps, i, k - 1);
      SpanContinues(cfg, run, inps, i, k, k - 2, CurrentAt(run[1], i).latency);
    }
  }

  /** A module no faster than the simulation is busy for more cycles than its task takes. */
  lemma SlowerThanSimulation(cycles: nat, sim: Speed, speed: Speed)
    requires speed <= sim
    ensures ExecutionLatency(cycles, sim, speed) + 1 > cycles
  {
    var n := ExecutionLatency(cycles, sim, speed);
    ExecutionLatencyBounds(cycles, sim, speed);
    if n < cycles {
      ScaleOrder(n as real, cycles as real, sim);
      ScaleLeft(n as real, speed, sim);
    }
  }

  /** `n` is the number of simulation cycles that just covers `cycles` cycles at `speed`. */
  predicate IsCeiling(n: nat, cycles: nat, sim: Speed, speed: Speed) {
    (n as real - 1.0) * speed < cycles as real * sim <= n as real * speed
  }

  /** Taking a queued task off an idle module's queue: it fails if the task has no type, the
      installed bitstream has no entry for that type, or the module has been stepped before;
      otherwise exactly the front task leaves the queue and its entry's execution starts. */
  lemma TakesFrontTask(c: RrcSpec.Rrc, region: Region, sim: Speed)
    requires c.queue != [] && Current(region).st == ModuleState.Idle
    ensures var r, typeId := RrcSpec.Pop(c, region, sim), c.queue[0].typeId;
            && (r.Some? <==> typeId.Some? && Implements(c.installed.bs, typeId.value) && !Current(region).inSim)
            && (r.Some? ==>
                  && r.value.0 == c.(queue := c.queue[1..], executing := true)
                  && exists task: TaskSpec :: RrcSpec.FirstOfType(c.installed.bs.tasks, typeId.value, task)
                                              && Runs(Current(region), Current(r.value.1), task, sim))
  {
    var typeId := c.queue[0].typeId;
    if typeId.Some? {
      var spec := RrcSpec.SpecForTask(c.installed.bs, typeId.value);
      SpecFound(Request(c.installed.bs, typeId.value));
      if spec.Some? {
        RrcSpec.SpecForTaskExactly(c.installed.bs, typeId.value, spec.value);
        RrcSpec.BeginStarts(c.(queue := c.queue[1..]), region, typeId.value, sim);
        ExecutionLatencyBounds(spec.value.cycles, sim, spec.value.speed);
      }
    }
  }

  /** `m` became `m'` by starting to execute the task. */
  predicate Runs(m: Module, m': Module, task: TaskSpec, sim: Speed) {
    m' == m.(st := Exec, running := true, speed := task.speed, latency := m'.latency)
    && IsCeiling(m'.latency, task.cycles, sim, task.speed)
  }

  /** The whole span of an execution, in terms of its task: with n simulation cycles covering the
      task's cycles, `prr_executing_` is high in exactly the n + 1 states after the install, the
      module is idle with its timestep reset in the next one, and at a speed no higher than the
      simulation's n + 1 exceeds the task's cycles. */
  lemma ExecutionExactly(cfg: Config, run: seq<State>, inps: seq<Inputs>, i: nat) returns (task: TaskSpec, n: nat)
    requires IsRun(cfg, run, inps) && Reachable(cfg, run[0]) && |run| > 1
    requires i < |run[0].core.ctrls| == |run[1].core.ctrls| && InstallsNow(run[0].core, run[1].core, i)
    ensures var r := run[1].core.ctrls[i].installed; RrcSpec.FirstOfType(r.bs.tasks, r.typeId, task)
    ensures IsCeiling(n, task.cycles, cfg.simSpeed, task.speed)
    ensures forall k :: 0 < k < |run| && k <= n + 2 ==> Executing(run[k], i, k - 1, n)
    ensures task.speed <= cfg.simSpeed ==> n + 1 > task.cycles
  {
    task, n := SpanOf(cfg, run, inps, i);
    SpanAll(cfg, run, inps, i, n);
    RrcSpec.SpecForTaskExactly(run[1].core.ctrls[i].installed.bs, run[1].core.ctrls[i].installed.typeId, task);
    SpanLength(task.cycles, cfg.simSpeed, task.speed, n);
  }

  lemma SpanLength(cycles: nat, sim: Speed, speed: Speed, n: nat)
    requires n == ExecutionLatency(cycles, sim, speed)
    ensures IsCeiling(n, cycles, sim, speed)
    ensures speed <= sim ==> n + 1 > cycles
  {
    ExecutionLatencyBounds(cycles, sim, speed);
    if speed <= sim {
      SlowerThanSimulation(cycles, sim, speed);
    }
  }

  lemma SpanAll(cfg: Config, run: seq<State>, inps: seq<Inputs>, i: nat, n: nat)
    requires IsRun(cfg, run, inps) && Reachable(cfg, run[0]) && |run| > 1
    requires i < |run[0].core.ctrls| == |run[1].core.ctrls| && InstallsNow(run[0].core, run[1].core, i)
    requires WellSized(run[1].core) && n == CurrentAt(run[1], i).latency
    ensures forall k :: 0 < k < |run| && k <= n + 2 ==> Executing(run[k], i, k - 1, n)
  {
    forall k | 0 < k < |run| && k <= n + 2
      ensures Executing(run[k], i, k - 1, n)
    {
      ExecutionSpan(cfg, run, inps, i, k);
    }
  }

  lemma SpanOf(cfg: Config, run: seq<State>, inps: seq<Inputs>, i: nat) returns (task: TaskSpec, n: nat)
    requires IsRun(cfg, run, inps) && Reachable(cfg, run[0]) && |run| > 1
    requires i < |run[0].core.ctrls| == |run[1].core.ctrls| && InstallsNow(run[0].core, run[1].core, i)
    ensures var r := run[1].core.ctrls[i].installed; RrcSpec.SpecForTask(r.bs, r.typeId) == Some(task)
    ensures n == ExecutionLatency(task.cycles, cfg.simSpeed, task.speed)
    ensures WellSized(run[1].core) && n == CurrentAt(run[1], i).latency
  {
    RunReachable(cfg, run, inps, 1);
    StartsExecution(cfg, run[0], inps[0], run[1], i);
    var r := run[1].core.ctrls[i].installed;
    task := RrcSpec.SpecForTask(r.bs, r.typeId).value;
    n := CurrentAt(run[1], i).latency;
  }

  lemma ScaleLeft(a: real, b: real, c: real)
    requires a >= 0.0 && b <= c
    ensures a * b <= a * c
  {
  }

  // ---------------------------------------------------------------- the enqueue line

  /** The task pushed at the rising edge in cycle `k`, if there is one; `high` is the line before. */
  function Pushed(high: bool, wave: seq<Option<Node>>, k: nat): seq<Node>
    requires k < |wave|
  {
    var before := if k == 0 then high else wave[k - 1].Some?;
    if wave[k].Some? && !before then [wave[k].value] else []
  }

  /** The tasks on the line at the rising edges of its sampled waveform. */
  function RisingTasks(high: bool, wave: seq<Option<Node>>): seq<Node> {
    if wave == [] then [] else RisingTasks(high, wave[..|wave| - 1]) + Pushed(high, wave, |wave| - 1)
  }

  /** The task a controller takes off its queue in one cycle, if any. */
  function Popped(c: RrcSpec.Rrc, own: Region, inp: RrcSpec.Inputs): seq<Node> {
    var queue := RrcSpec.Handshakes(c, inp).queue;
    if c.st == RrcSpec.State.Idle && queue != [] && Current(RrcSpec.Advance(own)).st == ModuleState.Idle
    then [queue[0]] else []
  }

  /** A controller by itself, in arbitrary surroundings that may change in every cycle. */
  datatype Surroundings = Surroundings(own: Region, inp: RrcSpec.Inputs, wire: Option<Request>, sim: Speed)

  ghost predicate ControllerRun(cs: seq<RrcSpec.Rrc>, env: seq<Surroundings>) {
    && |cs| == |env| + 1
    && forall k :: 0 <= k < |env| ==> ControllerTurn(cs, env, k)
  }

  predicate ControllerTurn(cs: seq<RrcSpec.Rrc>, env: seq<Surroundings>, k: nat)
    requires k < |env| < |cs|
  {
    var r := RrcSpec.Local(cs[k], env[k].own, env[k].inp, env[k].wire, env[k].sim);
    r.Some? && r.value.0 == cs[k + 1]
  }

  function Waveform(env: seq<Surroundings>): seq<Option<Node>> {
    seq(|env|, k requires 0 <= k < |env| => env[k].inp.enqueue)
  }

  function AllPopped(cs: seq<RrcSpec.Rrc>, env: seq<Surroundings>, k: nat): seq<Node>
    requires k <= |env| <= |cs|
  {
    if k == 0 then [] else AllPopped(cs, env, k - 1) + Popped(cs[k - 1], env[k - 1].own, env[k - 1].inp)
  }

  lemma QueueStep(c: RrcSpec.Rrc, own: Region, inp: RrcSpec.Inputs, wire: Option<Request>, sim: Speed)
    ensures var r := RrcSpec.Local(c, own, inp, wire, sim);
            r.Some? ==>
              && Popped(c, own, inp) + r.value.0.queue
                 == c.queue + (if inp.enqueue.Some? && !c.prcAck then [inp.enqueue.value] else [])
              && (r.value.0.prcAck <==> inp.enqueue.Some?)
  {
    var c1, own1 := RrcSpec.Executed(RrcSpec.Handshakes(c, inp), own), RrcSpec.Advance(own);
    HandshakeQueue(c, own, inp);
    ActQueue(c1, own1, inp, wire, sim);
  }

  lemma HandshakeQueue(c: RrcSpec.Rrc, own: Region, inp: RrcSpec.Inputs)
    ensures var h := RrcSpec.Handshakes(c, inp);
            var c1 := RrcSpec.Executed(h, own);
            && c1.st == c.st && c1.queue == h.queue && c1.prcAck == h.prcAck && (h.prcAck <==> inp.enqueue.Some?)
            && h.queue == c.queue + (if inp.enqueue.Some? && !c.prcAck then [inp.enqueue.value] else [])
  {
  }

  lemma ActQueue(c: RrcSpec.Rrc, region: Region, inp: RrcSpec.Inputs, wire: Option<Request>, sim: Speed)
    ensures var r := RrcSpec.Act(c, region, inp, wire, sim);
            r.Some? ==>
              && r.value.0.prcAck == c.prcAck
              && r.value.0.queue ==
                   (if c.st == RrcSpec.State.Idle && c.queue != [] && Current(region).st == ModuleState.Idle
                    then c.queue[1..] else c.queue)
  {
    match c.st
    case Init =>
    case Idle =>
      if c.queue != [] && c.queue[0].typeId.Some? {
        RrcSpec.BeginControl(c.(queue := c.queue[1..]), region, c.queue[0].typeId.value, sim);
      }
    case Transfer =>
      if !inp.icapTrans && wire.Some? && c.transferReq.bs.id in region.library {
        RrcSpec.BeginControl(c.(installed := wire.value, st := RrcSpec.State.Idle),
                             region.(resident := Library(c.transferReq.bs.id)), wire.value.typeId, sim);
      }
  }

  /** The queue's part of a controller run: what each cycle takes and pushes. */
  ghost predicate QueueTurns(cs: seq<RrcSpec.Rrc>, env: seq<Surroundings>) {
    && |cs| == |env| + 1
    && forall k :: 0 <= k < |env| ==> QueueTurnAt(cs, env, k)
  }

  ghost predicate QueueTurnAt(cs: seq<RrcSpec.Rrc>, env: seq<Surroundings>, k: nat)
    requires k < |env| < |cs|
  {
    QueueTurn(cs[k], env[k], cs[k + 1])
  }

  ghost predicate QueueTurn(c: RrcSpec.Rrc, e: Surroundings, c': RrcSpec.Rrc) {
    && Popped(c, e.own, e.inp) + c'.queue
       == c.queue + (if e.inp.enqueue.Some? && !c.prcAck then [e.inp.enqueue.value] else [])
    && (c'.prcAck <==> e.inp.enqueue.Some?)
  }

  lemma RunTurns(cs: seq<RrcSpec.Rrc>, env: seq<Surroundings>)
    requires ControllerRun(cs, env)
    ensures QueueTurns(cs, env)
  {
    forall k | 0 <= k < |env|
      ensures QueueTurnAt(cs, env, k)
    {
      assert ControllerTurn(cs, env, k);
      QueueStep(cs[k], env[k].own, env[k].inp, env[k].wire, env[k].sim);
    }
  }

  lemma TurnsAcknowledge(cs: seq<RrcSpec.Rrc>, env: seq<Surroundings>, k: nat)
    requires QueueTurns(cs, env) && k <= |env|
    ensures cs[k].prcAck <==> if k == 0 then cs[0].prcAck else env[k - 1].inp.enqueue.Some?
  {
    if k > 0 {
      assert QueueTurnAt(cs, env, k - 1);
    }
  }

  lemma TurnPushes(cs: seq<RrcSpec.Rrc>, env: seq<Surroundings>, k: nat)
    requires QueueTurns(cs, env) && k < |env|
    ensures Popped(cs[k], env[k].own, env[k].inp) + cs[k + 1].queue
         == cs[k].queue + Pushed(cs[0].prcAck, Waveform(env), k)
  {
    TurnsAcknowledge(cs, env, k);
    assert QueueTurnAt(cs, env, k);
  }

  /** After `k` cycles, what was taken and what is queued are what was pushed. */
  ghost predicate Delivers(cs: seq<RrcSpec.Rrc>, env: seq<Surroundings>, k: nat)
    requires k <= |env| < |cs|
  {
    AllPopped(cs, env, k) + cs[k].queue == cs[0].queue + RisingTasks(cs[0].prcAck, Waveform(env)[..k])
  }

  lemma PoppedStep(cs: seq<RrcSpec.Rrc>, env: seq<Surroundings>, k: nat)
    requires k < |env| <= |cs|
    ensures AllPopped(cs, env, k + 1) == AllPopped(cs, env, k) + Popped(cs[k], env[k].own, env[k].inp)
  {
  }

  lemma DeliversNext(cs: seq<RrcSpec.Rrc>, env: seq<Surroundings>, k: nat, now: seq<Node>, pushed: seq<Node>)
    requires k < |env| < |cs| && Delivers(cs, env, k)
    requires AllPopped(cs, env, k + 1) == AllPopped(cs, env, k) + now
    requires RisingTasks(cs[0].prcAck, Waveform(env)[..k + 1]) == RisingTasks(cs[0].prcAck, Waveform(env)[..k]) + pushed
    requires now + cs[k + 1].queue == cs[k].queue + pushed
    ensures Delivers(cs, env, k + 1)
  {
    Shift(AllPopped(cs, env, k), now, cs[k + 1].queue, cs[k].queue, pushed,
          cs[0].queue, RisingTasks(cs[0].prcAck, Waveform(env)[..k]));
  }

  lemma DeliversStep(cs: seq<RrcSpec.Rrc>, env: seq<Surroundings>, k: nat)
    requires QueueTurns(cs, env) && k < |env| && Delivers(cs, env, k)
    ensures Delivers(cs, env, k + 1)
  {
    var now, pushed := Popped(cs[k], env[k].own, env[k].inp), Pushed(cs[0].prcAck, Waveform(env), k);
    PoppedStep(cs, env, k);
    TurnPushes(cs, env, k);
    RisingStep(cs[0].prcAck, Waveform(env), k);
    DeliversNext(cs, env, k, now, pushed);
  }

  lemma {:induction false} TurnsDeliver(cs: seq<RrcSpec.Rrc>, env: seq<Surroundings>, k: nat)
    requires QueueTurns(cs, env) && k <= |env|
    ensures Delivers(cs, env, k)
  {
    if k > 0 {
      TurnsDeliver(cs, env, k - 1);
      DeliversStep(cs, env, k - 1);
    }
  }

  /** For every waveform and in every controller state: the tasks taken so far followed by the
      queue are the tasks sampled at the rising edges, in order. */
  lemma QueueDelivers(cs: seq<RrcSpec.Rrc>, env: seq<Surroundings>, k: nat)
    requires ControllerRun(cs, env) && k <= |env|
    ensures AllPopped(cs, env, k) + cs[k].queue == cs[0].queue + RisingTasks(cs[0].prcAck, Waveform(env)[..k])
    ensures cs[k].prcAck <==> if k == 0 then cs[0].prcAck else env[k - 1].inp.enqueue.Some?
  {
    RunTurns(cs, env);
    TurnsDeliver(cs, env, k);
    TurnsAcknowledge(cs, env, k);
  }

  lemma RisingStep(high: bool, wave: seq<Option<Node>>, k: nat)
    requires k < |wave|
    ensures RisingTasks(high, wave[..k + 1]) == RisingTasks(high, wave[..k]) + Pushed(high, wave, k)
  {
    assert wave[..k + 1][..k] == wave[..k];
  }

  lemma Shift<T>(taken: seq<T>, now: seq<T>, after: seq<T>, before: seq<T>, pushed: seq<T>, q0: seq<T>, rising: seq<T>)
    requires now + after == before + pushed && taken + before == q0 + rising
    ensures (taken + now) + after == q0 + (rising + pushed)
  {
    assert (taken + now) + after == taken + (now + after);
    assert taken + (before + pushed) == (taken + before) + pushed;
    assert (q0 + rising) + pushed == q0 + (rising + pushed);
  }
}
