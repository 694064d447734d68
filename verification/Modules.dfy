/** The value of one reconfigurable module, and of one region: which module it holds and
    what the bitstream library keeps for it. */
module Modules {
  import opened Types

  datatype ModuleState = Vacant | Idle | Transfer | Exec

  /** `running` is the source's `executing_`, which nothing ever clears. */
  datatype Module = Module(
    st: ModuleState, regionId: nat, id: nat, width: nat, running: bool, speed: real,
    latency: nat, timestep: nat, inSim: bool)

  /** Module id -1 of a placeholder, as the unsigned value it wraps to. */
  const NO_ID: nat := TWO_32 - 1

  function NewPlaceholder(regionId: nat): Module {
    Module(Vacant, regionId, NO_ID, 0, false, 0.0, 0, 0, false)
  }

  function NewModule(regionId: nat, id: nat, width: nat): Module {
    Module(Vacant, regionId, id, width, false, 0.0, 0, 0, false)
  }

  function Ceil(x: real): int { -((-x).Floor) }

  lemma ScaleOrder(a: real, b: real, c: real)
    requires c > 0.0
    ensures a < b ==> a * c < b * c
    ensures a <= b ==> a * c <= b * c
  {
  }

  /** Simulation cycles that `cycles` module cycles take; 0 for a speed that was never set. */
  function ExecutionLatency(cycles: nat, sim: Speed, speed: real): nat {
    if speed <= 0.0 then 0
    else
      Quotient(cycles as real * sim, speed);
      Ceil(cycles as real * sim / speed)
  }

  lemma Quotient(x: real, y: real)
    requires x >= 0.0 && y > 0.0
    ensures x / y >= 0.0 && (x / y) * y == x
  {
  }

  /** The latency is the least number of simulation cycles that covers the module's cycles. */
  lemma ExecutionLatencyBounds(cycles: nat, sim: Speed, speed: Speed)
    ensures var n := ExecutionLatency(cycles, sim, speed);
            (n as real - 1.0) * speed < cycles as real * sim <= n as real * speed
  {
    var x := cycles as real * sim / speed;
    Quotient(cycles as real * sim, speed);
    var n := Ceil(x);
    assert n as real - 1.0 < x <= n as real;
    ScaleOrder(n as real - 1.0, x, speed);
    ScaleOrder(x, n as real, speed);
  }

  function BeginTransfer(m: Module): Module { m.(st := Transfer) }

  /** None when the speed is set after the module's first simulated step: the source throws. */
  function SetSpeed(m: Module, speed: real): Option<Module> {
    if m.inSim then None else Some(m.(speed := speed))
  }

  function BeginExecution(m: Module, sim: Speed, cycles: nat): Module {
    m.(st := Exec, running := true, latency := ExecutionLatency(cycles, sim, m.speed))
  }

  predicate Finishes(m: Module) { m.timestep + 1 > m.latency }

  function StepModule(m: Module): Module {
    if Finishes(m) then m.(inSim := true, timestep := 0, st := Idle)
    else m.(inSim := true, timestep := m.timestep + 1)
  }

  /** A region's table entry: its own placeholder, or a reference into the library. */
  datatype Resident = Placeholder(m: Module) | Library(id: nat)

  datatype RawRegion = Region(resident: Resident, library: map<nat, Module>)

  type Region = r: RawRegion | r.resident.Library? ==> r.resident.id in r.library
    witness Region(Placeholder(NewPlaceholder(0)), map[])

  function Current(r: Region): Module {
    match r.resident
    case Placeholder(m) => m
    case Library(id) => r.library[id]
  }

  /** Writes through the table entry: a library module is shared, so the library changes too. */
  function Update(r: Region, m: Module): Region {
    match r.resident
    case Placeholder(_) => r.(resident := Placeholder(m))
    case Library(id) => r.(library := r.library[id := m])
  }
}
