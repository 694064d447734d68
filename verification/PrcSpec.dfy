/** One cycle of the partial reconfiguration controller. The scheduler's and the selector's
    answers, and the two comparisons with wires the source leaves unconnected, are inputs. */
module PrcSpec {
  import opened Types

  datatype State = Init | TaskSchedule | RrSchedule | ReqIcap | RrEnqueue

  /** `next` is the scheduler's front task, None when its queue is empty. `installed` is the
      comparison with the region's bitstream id and `targeted` the one with the ICAP's target. */
  datatype Inputs = Inputs(next: Option<Node>, selection: Selection, installed: bool, targeted: bool)

  datatype Prc = Prc(st: State, req: bool, task: Node, scheduled: Request)

  function Initial(): Prc {
    Prc(Init, false, Node("", None), Request(NULL_SPEC, ""))
  }

  function TypeOf(task: Node): string { if task.typeId.Some? then task.typeId.value else "" }

  /** None is a throw, or the front of an empty queue. */
  function Step(p: Prc, icapAck: bool, icapTrans: bool, inp: Inputs): Option<Prc> {
    match p.st
    case Init => Some(p.(st := TaskSchedule))
    case TaskSchedule =>
      if inp.next.None? then None
      else Some(p.(task := inp.next.value, st := RrSchedule))
    case RrSchedule =>
      (match inp.selection
       case Raised => None
       case NotFound => Some(p.(scheduled := Request(NULL_SPEC, TypeOf(p.task)), st := TaskSchedule))
       case Found(spec) =>
         var p := p.(scheduled := Request(spec, TypeOf(p.task)));
         if icapTrans && inp.targeted && !inp.installed then Some(p.(st := TaskSchedule))
         else if inp.installed then Some(p.(st := RrEnqueue))
         else Some(p.(st := ReqIcap, req := true)))
    case ReqIcap =>
      if icapAck then Some(p.(req := false, st := TaskSchedule)) else Some(p)
    case RrEnqueue => None
  }
}
