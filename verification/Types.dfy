/** The entities every component shares: task and module specifications, task-graph
    nodes, and the request that travels from the PRC to the ICAP to a region controller. */
module Types {

  datatype Option<+T> = None | Some(value: T)

  /** Speeds are positive clock rates in MHz, taken as exact rationals. */
  type Speed = r: real | r > 0.0 witness 1.0

  /** Number of values of the source's 32-bit `unsigned`. */
  const TWO_32: nat := 0x1_0000_0000

  datatype TaskSpec = TaskSpec(regionId: nat, moduleId: nat, typeId: string, speed: Speed, cycles: nat)

  datatype ModuleSpec = ModuleSpec(regionId: nat, id: nat, width: nat, tasks: seq<TaskSpec>)

  /** What a value-initialised module specification holds. */
  const NULL_SPEC := ModuleSpec(0, 0, 0, [])

  /** Keyed by region id, then by module id. */
  type SpecMap = map<nat, map<nat, ModuleSpec>>

  /** A task-graph node; the "type" entry of its metadata may be missing. */
  datatype Node = Node(key: string, typeId: Option<string>)

  /** A scheduled bitstream together with the task type it was chosen for. */
  datatype Request = Request(bs: ModuleSpec, typeId: string)

  /** A selector's answer: it threw, found no idle region, or chose a bitstream. */
  datatype Selection = Raised | NotFound | Found(spec: ModuleSpec)

  predicate Implements(spec: ModuleSpec, typeId: string) {
    exists k :: 0 <= k < |spec.tasks| && spec.tasks[k].typeId == typeId
  }

  /** Every specification carries the two keys it is stored under. */
  ghost predicate WellKeyed(specs: SpecMap) {
    forall r, m :: r in specs && m in specs[r] ==>
      specs[r][m].regionId == r && specs[r][m].id == m
  }
}
