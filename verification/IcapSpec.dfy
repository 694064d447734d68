/** One cycle of the internal configuration access port, as a function of its own state, the
    latched signals and the PRC's unlatched scheduled bitstream. */
module IcapSpec {
  import opened Types
  import opened Configuration

  datatype State = Init | Idle | Ack | Wait | Transfer

  datatype Icap = Icap(
    st: State, prcAck: bool, transferring: bool, latency: nat,
    prrReq: seq<bool>, target: Option<Request>)

  function Initial(n: nat): Icap {
    Icap(Init, false, false, 0, seq(n, i => false), None)
  }

  const LATENCY_WRAP: nat := 0xFFFF_FFFF_FFFF_FFFF

  /** `ready` is the outcome of the readiness guard. None is a failed assertion or an access
      outside the request bus: the simulation ends. */
  function Step(cfg: Config, c: Icap, prcReq: bool, prrAck: bool, ready: bool, wire: Request): Option<Icap> {
    var c := if c.prcAck && !prcReq then c.(prcAck := false) else c;
    match c.st
    case Init => Some(c.(st := Idle))
    case Idle =>
      if !prcReq then Some(c)
      else if ready then Some(c.(prcAck := true, st := Ack))
      else Some(c.(st := Wait))
    case Ack =>
      if !(c.prcAck || !prcReq) then None
      else if prcReq then Some(c)
      else if wire.bs.regionId >= |c.prrReq| then None
      else Some(c.(prcAck := false, target := Some(wire),
                   prrReq := c.prrReq[wire.bs.regionId := true], transferring := true, st := Wait))
    case Wait =>
      if !prrAck then Some(c)
      else if c.target.None? || c.target.value.bs.regionId >= |c.prrReq| then None
      else
        var r := c.target.value.bs.regionId;
        Some(c.(prrReq := c.prrReq[r := false], latency := cfg.TransferLatency(r), st := Transfer))
    case Transfer =>
      if c.latency == 0 then Some(c.(latency := LATENCY_WRAP, transferring := false, st := Idle))
      else Some(c.(latency := c.latency - 1))
  }
}
