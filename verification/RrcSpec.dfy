/** One cycle of a reconfigurable region's controller: the enqueue handshake and the resident
    module's own step, then the action of the controller's state. */
module RrcSpec {
  import opened Types
  import opened Modules

  datatype State = Init | Idle | Transfer

  datatype Rrc = Rrc(
    st: State, icapAck: bool, prcAck: bool, executing: bool, queue: seq<Node>,
    transferReq: Request, installed: Request)

  function Initial(): Rrc {
    Rrc(Init, false, false, false, [], Request(NULL_SPEC, ""), Request(NULL_SPEC, ""))
  }

  /** Latched signals: `enqueue` carries the current task while the PRC's line is high. */
  datatype Inputs = Inputs(enqueue: Option<Node>, icapReq: bool, icapTrans: bool)

  /** Position of the first entry for a task type, |tasks| when there is none. */
  function SpecIndex(tasks: seq<TaskSpec>, typeId: string): (k: nat)
    ensures k <= |tasks|
    ensures k < |tasks| ==> tasks[k].typeId == typeId
    ensures forall j :: 0 <= j < k ==> tasks[j].typeId != typeId
  {
    if tasks == [] || tasks[0].typeId == typeId then 0
    else
      var k := SpecIndex(tasks[1..], typeId);
      assert forall j :: 1 <= j < k + 1 ==> tasks[j] == tasks[1..][j - 1];
      k + 1
  }

  function SpecForTask(spec: ModuleSpec, typeId: string): Option<TaskSpec> {
    var k := SpecIndex(spec.tasks, typeId);
    if k < |spec.tasks| then Some(spec.tasks[k]) else None
  }

  /** `task` is the list's first entry of the type. */
  predicate FirstOfType(tasks: seq<TaskSpec>, typeId: string, task: TaskSpec) {
    exists k :: 0 <= k < |tasks| && tasks[k] == task && task.typeId == typeId
                && forall j :: 0 <= j < k ==> tasks[j].typeId != typeId
  }

  /** The lookup finds exactly the first entry of the type, and nothing exactly without one. */
  lemma SpecForTaskExactly(spec: ModuleSpec, typeId: string, task: TaskSpec)
    ensures SpecForTask(spec, typeId) == Some(task) <==> FirstOfType(spec.tasks, typeId, task)
    ensures SpecForTask(spec, typeId).None? <==> forall k :: 0 <= k < |spec.tasks| ==> spec.tasks[k].typeId != typeId
  {
    var k := SpecIndex(spec.tasks, typeId);
    if FirstOfType(spec.tasks, typeId, task) {
      var m :| 0 <= m < |spec.tasks| && spec.tasks[m] == task && task.typeId == typeId
               && forall j :: 0 <= j < m ==> spec.tasks[j].typeId != typeId;
      assert k == m;
    }
    if k < |spec.tasks| {
      assert spec.tasks[k].typeId == typeId;
    }
  }

  /** The enqueue handshake, then withdrawing the ICAP acknowledgement. */
  function Handshakes(c: Rrc, inp: Inputs): Rrc {
    var c := if inp.enqueue.Some? && !c.prcAck then c.(queue := c.queue + [inp.enqueue.value], prcAck := true)
             else if c.prcAck && inp.enqueue.None? then c.(prcAck := false)
             else c;
    if c.icapAck && !inp.icapReq then c.(icapAck := false) else c
  }

  function Executed(c: Rrc, own: Region): Rrc {
    if Current(own).st == Exec && Finishes(Current(own)) then c.(executing := false) else c
  }

  function Advance(own: Region): Region {
    if Current(own).st == Exec then Update(own, StepModule(Current(own))) else own
  }

  /** The region whose entry the state's action works on: its own, except that the ICAP paths
      use the region id that the request carries. */
  function TargetRegion(i: nat, c: Rrc, inp: Inputs, wire: Option<Request>): nat {
    if c.st == State.Idle && c.queue == [] && inp.icapReq && wire.Some? then wire.value.bs.regionId
    else if c.st == State.Transfer && !inp.icapTrans then c.transferReq.bs.regionId
    else i
  }

  /** Starts a task on a region's resident module; None when a lookup or `setSpeed` throws. */
  function Begin(c: Rrc, region: Region, typeId: string, sim: Speed): Option<(Rrc, Region)> {
    var spec := SpecForTask(c.installed.bs, typeId);
    if spec.None? then None
    else
      var m := SetSpeed(Current(region), spec.value.speed);
      if m.None? then None
      else Some((c.(executing := true), Update(region, BeginExecution(m.value, sim, spec.value.cycles))))
  }

  /** Takes the front task off the queue and starts it, once the region's module is idle. */
  function Pop(c: Rrc, region: Region, sim: Speed): Option<(Rrc, Region)>
    requires c.queue != []
  {
    if Current(region).st != ModuleState.Idle then Some((c, region))
    else if c.queue[0].typeId.None? then None
    else Begin(c.(queue := c.queue[1..]), region, c.queue[0].typeId.value, sim)
  }

  /** Offers the request in `transferReq` to a region: refused by a module that was started, and a
      fault when the module is already there. */
  function Offer(c: Rrc, region: Region): Option<(Rrc, Region)> {
    if Current(region).id == c.transferReq.bs.id then None
    else if Current(region).running then Some((c, region))
    else Some((c.(icapAck := true, st := State.Transfer), Update(region, BeginTransfer(Current(region)))))
  }

  /** Installs the library module of the accepted request and starts it. */
  function Complete(c: Rrc, region: Region, wire: Option<Request>, sim: Speed): Option<(Rrc, Region)> {
    if c.transferReq.bs.id !in region.library || wire.None? then None
    else Begin(c.(installed := wire.value, st := State.Idle),
               region.(resident := Library(c.transferReq.bs.id)), wire.value.typeId, sim)
  }

  function ActIdle(c: Rrc, region: Region, inp: Inputs, wire: Option<Request>, sim: Speed): Option<(Rrc, Region)> {
    if c.queue != [] then Pop(c, region, sim)
    else if !inp.icapReq then Some((c, region))
    else if wire.None? then None
    else Offer(c.(transferReq := wire.value), region)
  }

  function ActTransfer(c: Rrc, region: Region, inp: Inputs, wire: Option<Request>, sim: Speed): Option<(Rrc, Region)> {
    if inp.icapTrans then Some((c, region)) else Complete(c, region, wire, sim)
  }

  function Act(c: Rrc, region: Region, inp: Inputs, wire: Option<Request>, sim: Speed): Option<(Rrc, Region)> {
    match c.st
    case Init => Some((c.(st := State.Idle), region))
    case Idle => ActIdle(c, region, inp, wire, sim)
    case Transfer => ActTransfer(c, region, inp, wire, sim)
  }

  /** The whole cycle of controller `i` on the shared regions. */
  function Step(i: nat, c: Rrc, regions: seq<Region>, inp: Inputs, wire: Option<Request>, sim: Speed)
    : Option<(Rrc, seq<Region>)>
    requires i < |regions|
  {
    var c1 := Executed(Handshakes(c, inp), regions[i]);
    var regions1 := regions[i := Advance(regions[i])];
    var t := TargetRegion(i, c1, inp, wire);
    if t >= |regions| then None
    else
      match Act(c1, regions1[t], inp, wire, sim)
      case None => None
      case Some((c2, region)) => Some((c2, regions1[t := region]))
  }

  /** The same cycle when the request names the controller's own region. */
  function Local(c: Rrc, own: Region, inp: Inputs, wire: Option<Request>, sim: Speed): Option<(Rrc, Region)> {
    Act(Executed(Handshakes(c, inp), own), Advance(own), inp, wire, sim)
  }

  lemma StepIsLocal(i: nat, c: Rrc, regions: seq<Region>, inp: Inputs, wire: Option<Request>, sim: Speed)
    requires i < |regions|
    requires TargetRegion(i, Executed(Handshakes(c, inp), regions[i]), inp, wire) == i
    ensures var r := Step(i, c, regions, inp, wire, sim);
            match Local(c, regions[i], inp, wire, sim)
            case None => r.None?
            case Some((c', region)) => r == Some((c', regions[i := region]))
  {
    var regions1 := regions[i := Advance(regions[i])];
    match Local(c, regions[i], inp, wire, sim)
    case None =>
    case Some((_, region)) =>
      assert regions1[i := region] == regions[i := region];
  }

  /** The control part of a cycle: how state, acknowledgement and accepted request move. */
  predicate Moves(c: Rrc, inp: Inputs, wire: Option<Request>, c': Rrc) {
    var ack := c.icapAck && inp.icapReq;
    match c.st
    case Init => c'.st == State.Idle && c'.icapAck == ack && c'.transferReq == c.transferReq
    case Idle =>
      if c'.st == State.Transfer then
        inp.icapReq && wire.Some? && c'.transferReq == wire.value && c'.icapAck
      else
        c'.st == State.Idle && c'.icapAck == ack
    case Transfer =>
      && c'.icapAck == ack && c'.transferReq == c.transferReq
      && c'.st == (if inp.icapTrans then State.Transfer else State.Idle)
      && (!inp.icapTrans ==> wire.Some? && c'.installed == wire.value)
  }

  lemma BeginControl(c: Rrc, region: Region, typeId: string, sim: Speed)
    ensures var r := Begin(c, region, typeId, sim); r.Some? ==> r.value.0 == c.(executing := true)
  {
  }

  lemma ActMoves(c: Rrc, region: Region, inp: Inputs, wire: Option<Request>, sim: Speed)
    requires c.icapAck ==> inp.icapReq
    ensures var r := Act(c, region, inp, wire, sim);
            r.Some? ==> Moves(c, inp, wire, r.value.0)
  {
    match c.st
    case Init =>
    case Idle =>
      if c.queue != [] && c.queue[0].typeId.Some? {
        BeginControl(c.(queue := c.queue[1..]), region, c.queue[0].typeId.value, sim);
      }
    case Transfer =>
      if !inp.icapTrans && wire.Some? && c.transferReq.bs.id in region.library {
        BeginControl(c.(installed := wire.value, st := State.Idle),
                     region.(resident := Library(c.transferReq.bs.id)), wire.value.typeId, sim);
      }
  }

  lemma LocalMoves(c: Rrc, own: Region, inp: Inputs, wire: Option<Request>, sim: Speed)
    ensures var r := Local(c, own, inp, wire, sim);
            r.Some? ==> Moves(c, inp, wire, r.value.0)
  {
    var c1 := Executed(Handshakes(c, inp), own);
    ActMoves(c1, Advance(own), inp, wire, sim);
    assert c1.st == c.st && c1.transferReq == c.transferReq && c1.icapAck == (c.icapAck && inp.icapReq);
  }

  /** What starting a task does to the module. */
  lemma BeginStarts(c: Rrc, region: Region, typeId: string, sim: Speed)
    ensures var r, m := Begin(c, region, typeId, sim), Current(region);
            var spec := SpecForTask(c.installed.bs, typeId);
            r.Some? ==>
              && r.value.0 == c.(executing := true) && spec.Some?
              && Current(r.value.1) == m.(speed := spec.value.speed, st := Exec, running := true,
                                          latency := ExecutionLatency(spec.value.cycles, sim, spec.value.speed))
  {
  }

  /** Both entries are placeholders, or both refer to the same library module. */
  predicate SameResident(a: Region, b: Region) {
    if a.resident.Library? then b.resident == a.resident else b.resident.Placeholder?
  }

  lemma BeginResident(c: Rrc, region: Region, typeId: string, sim: Speed)
    ensures var r := Begin(c, region, typeId, sim); r.Some? ==> SameResident(region, r.value.1)
  {
  }

  lemma ActResident(c: Rrc, region: Region, inp: Inputs, wire: Option<Request>, sim: Speed)
    ensures var r := Act(c, region, inp, wire, sim);
            r.Some? ==> if c.st == State.Transfer && !inp.icapTrans
                        then r.value.1.resident == Library(c.transferReq.bs.id)
                        else SameResident(region, r.value.1)
  {
    match c.st
    case Init =>
    case Idle =>
      if c.queue != [] && c.queue[0].typeId.Some? {
        BeginResident(c.(queue := c.queue[1..]), region, c.queue[0].typeId.value, sim);
      }
    case Transfer =>
      if !inp.icapTrans && wire.Some? && c.transferReq.bs.id in region.library {
        BeginResident(c.(installed := wire.value, st := State.Idle),
                      region.(resident := Library(c.transferReq.bs.id)), wire.value.typeId, sim);
      }
  }

  /** Which module the region holds afterwards. */
  lemma LocalResident(c: Rrc, own: Region, inp: Inputs, wire: Option<Request>, sim: Speed)
    ensures var r := Local(c, own, inp, wire, sim);
            r.Some? ==> if c.st == State.Transfer && !inp.icapTrans
                        then r.value.1.resident == Library(c.transferReq.bs.id)
                        else SameResident(own, r.value.1)
  {
    var c1 := Executed(Handshakes(c, inp), own);
    ActResident(c1, Advance(own), inp, wire, sim);
    assert SameResident(own, Advance(own));
    assert c1.st == c.st && c1.transferReq == c.transferReq;
  }
}
