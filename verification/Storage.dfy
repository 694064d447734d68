/** The storage objects of a device: modules, the region table, and a memory level's module
    table. The region table and main memory share module objects. */
module Storage {
  import opened Types
  import opened Modules

  function TaskTypes(tasks: seq<TaskSpec>): seq<string> {
    seq(|tasks|, k requires 0 <= k < |tasks| => tasks[k].typeId)
  }

  class RrModule {
    const regionId: nat
    const id: nat
    const width: nat
    const taskTypes: seq<string>
    var st: ModuleState
    var executing: bool
    var speed: real
    var latency: nat
    var timestep: nat
    var inSimulation: bool

    function Value(): Module
      reads this
    {
      Module(st, regionId, id, width, executing, speed, latency, timestep, inSimulation)
    }

    constructor Placeholder(regionId: nat)
      ensures Value() == NewPlaceholder(regionId) && taskTypes == []
    {
      this.regionId, id, width, taskTypes := regionId, NO_ID, 0, [];
      st, executing, speed, latency, timestep, inSimulation := Vacant, false, 0.0, 0, 0, false;
    }

    constructor (regionId: nat, id: nat, width: nat, tasks: seq<TaskSpec>)
      ensures Value() == NewModule(regionId, id, width) && taskTypes == TaskTypes(tasks)
    {
      this.regionId, this.id, this.width, taskTypes := regionId, id, width, TaskTypes(tasks);
      st, executing, speed, latency, timestep, inSimulation := Vacant, false, 0.0, 0, 0, false;
    }

    method BeginTransfer()
      modifies this
      ensures Value() == Modules.BeginTransfer(old(Value()))
    {
      st := ModuleState.Transfer;
    }

    /** False when the source throws. */
    method SetSpeed(speed: real) returns (ok: bool)
      modifies this
      ensures ok <==> Modules.SetSpeed(old(Value()), speed).Some?
      ensures Value() == if ok then Modules.SetSpeed(old(Value()), speed).value else old(Value())
    {
      ok := !inSimulation;
      if ok {
        this.speed := speed;
      }
    }

    method BeginExecution(sim: Speed, cycles: nat)
      modifies this
      ensures Value() == Modules.BeginExecution(old(Value()), sim, cycles)
    {
      st, executing := Exec, true;
      latency := ExecutionLatency(cycles, sim, speed);
    }

    method Step() returns (finished: bool)
      modifies this
      ensures finished == Finishes(old(Value())) && Value() == StepModule(old(Value()))
    {
      inSimulation := true;
      timestep := timestep + 1;
      finished := timestep > latency;
      if finished {
        timestep, st := 0, ModuleState.Idle;
      }
    }
  }

  /** The region table: one module reference per region. */
  class ReconfigurableRegions {
    var table: map<nat, RrModule>

    constructor ()
      ensures table == map[]
    {
      table := map[];
    }

    method InsertModule(m: RrModule)
      modifies this
      ensures table == old(table)[m.regionId := m]
    {
      table := table[m.regionId := m];
    }

    /** None stands for the null pointer the source would hand out. */
    method GetModuleFromRegion(region: nat) returns (r: Option<RrModule>)
      ensures r == if region in table then Some(table[region]) else None
    {
      r := if region in table then Some(table[region]) else None;
    }
  }

  /** What a module table files under a region: nothing for a region without an entry. */
  function Row(table: map<nat, map<nat, RrModule>>, region: nat): map<nat, RrModule> {
    if region in table then table[region] else map[]
  }

  /** A memory level: references by region and by module. */
  class MemoryLevel {
    const unitSize: nat
    var table: map<nat, map<nat, RrModule>>

    constructor (unitSize: nat)
      ensures this.unitSize == unitSize && table == map[]
    {
      this.unitSize := unitSize;
      table := map[];
    }

    predicate Has(region: nat, id: nat)
      reads this
    {
      region in table && id in table[region]
    }

    /** Files the module under its own ids and leaves every other entry alone. */
    method InsertModule(m: RrModule)
      modifies this
      ensures Has(m.regionId, m.id) && table[m.regionId][m.id] == m
      ensures table == old(table)[m.regionId := Row(old(table), m.regionId)[m.id := m]]
    {
      if m.regionId !in table {
        var row: map<nat, RrModule> := map[m.id := m];
        table := table[m.regionId := row];
      } else {
        var row: map<nat, RrModule> := table[m.regionId][m.id := m];
        table := table[m.regionId := row];
      }
    }

    method GetModule(region: nat, id: nat) returns (r: Option<RrModule>)
      ensures r == if Has(region, id) then Some(table[region][id]) else None
    {
      r := if region in table && id in table[region] then Some(table[region][id]) else None;
    }

    /** The size accessor narrows to 16 bits. */
    method GetSize() returns (size: nat)
      ensures size == unitSize % 65536
    {
      size := unitSize % 65536;
    }
  }

  // ---------------------------------------------------------------- the shared objects

  type Entries = map<nat, RrModule>
  type Library = map<nat, map<nat, RrModule>>

  ghost function Shared(entries: Entries, library: Library): set<RrModule> {
    entries.Values + set r, m | r in library && m in library[r] :: library[r][m]
  }

  /** `n` regions, each with a table entry and a library, all filed under their own ids. */
  ghost predicate Filed(entries: Entries, library: Library, n: nat) {
    && (forall r :: r in entries <==> 0 <= r < n)
    && (forall r :: r in library <==> 0 <= r < n)
    && (forall r :: r in entries ==> entries[r].regionId == r)
    && (forall r, m :: r in library && m in library[r] ==> library[r][m].regionId == r && library[r][m].id == m)
  }

  /** A region's value, from the values of the objects: its entry is a library module exactly when
      it is the same object. */
  ghost function RegionOf(entries: Entries, library: Library, values: map<RrModule, Module>, r: nat): Region
    requires r in entries && r in library && Shared(entries, library) <= values.Keys
  {
    var e := entries[r];
    var lib := map m | m in library[r] :: values[library[r][m]];
    if e.id in library[r] && library[r][e.id] == e then Region(Resident.Library(e.id), lib)
    else Region(Resident.Placeholder(values[e]), lib)
  }

  ghost function RegionsOf(entries: Entries, library: Library, values: map<RrModule, Module>, n: nat): seq<Region>
    requires Filed(entries, library, n) && Shared(entries, library) <= values.Keys
  {
    seq(n, r requires 0 <= r < n => RegionOf(entries, library, values, r))
  }

  lemma SameRegion(entries: Entries, library: Library, values: map<RrModule, Module>, values': map<RrModule, Module>,
                   r: nat)
    requires r in entries && r in library
    requires Shared(entries, library) <= values.Keys && Shared(entries, library) <= values'.Keys
    requires values[entries[r]] == values'[entries[r]]
    requires forall m :: m in library[r] ==> values[library[r][m]] == values'[library[r][m]]
    ensures RegionOf(entries, library, values, r) == RegionOf(entries, library, values', r)
  {
    assert RegionOf(entries, library, values, r).library == RegionOf(entries, library, values', r).library;
  }

  lemma LibraryKeys(entries: Entries, library: Library, values: map<RrModule, Module>, n: nat, r: nat)
    requires Filed(entries, library, n) && Shared(entries, library) <= values.Keys && r < n
    ensures RegionsOf(entries, library, values, n)[r].library.Keys == library[r].Keys
  {
  }

  lemma OtherKept(entries: Entries, library: Library, values: map<RrModule, Module>, n: nat, r: nat, m: Module, q: nat)
    requires Filed(entries, library, n) && Shared(entries, library) <= values.Keys && r < n && q < n && q != r
    ensures RegionOf(entries, library, values[entries[r] := m], q) == RegionOf(entries, library, values, q)
  {
    forall k | k in library[q]
      ensures library[q][k] != entries[r]
    {
      assert library[q][k].regionId == q;
    }
    SameRegion(entries, library, values, values[entries[r] := m], q);
  }

  lemma OwnChanged(entries: Entries, library: Library, values: map<RrModule, Module>, n: nat, r: nat, m: Module)
    requires Filed(entries, library, n) && Shared(entries, library) <= values.Keys && r < n
    ensures var before := RegionOf(entries, library, values, r);
            && RegionOf(entries, library, values[entries[r] := m], r) == Update(before, m)
            && Current(before) == values[entries[r]]
  {
    var e, values' := entries[r], values[entries[r] := m];
    var before := RegionOf(entries, library, values, r);
    if e.id in library[r] && library[r][e.id] == e {
      assert RegionOf(entries, library, values', r).library == before.library[e.id := m];
    } else {
      assert RegionOf(entries, library, values', r).library == before.library;
    }
  }

  /** Changing one region's current module changes that region alone; when the entry refers to a
      library module, the library changes with it. */
  lemma CurrentChanged(entries: Entries, library: Library, values: map<RrModule, Module>, n: nat, r: nat, m: Module)
    requires Filed(entries, library, n) && Shared(entries, library) <= values.Keys && r < n
    ensures var before := RegionsOf(entries, library, values, n);
            var after := RegionsOf(entries, library, values[entries[r] := m], n);
            after == before[r := Update(before[r], m)] && Current(before[r]) == values[entries[r]]
  {
    OwnChanged(entries, library, values, n, r, m);
    forall q | 0 <= q < n && q != r
      ensures RegionOf(entries, library, values[entries[r] := m], q) == RegionOf(entries, library, values, q)
    {
      OtherKept(entries, library, values, n, r, m, q);
    }
  }

  /** Putting a library module into its region's entry. */
  lemma EntryReplaced(entries: Entries, library: Library, values: map<RrModule, Module>, n: nat, r: nat, m: nat)
    requires Filed(entries, library, n) && Shared(entries, library) <= values.Keys && r < n && m in library[r]
    ensures var entries' := entries[r := library[r][m]];
            && Filed(entries', library, n) && Shared(entries', library) <= Shared(entries, library)
            && var before := RegionsOf(entries, library, values, n);
               RegionsOf(entries', library, values, n) == before[r := before[r].(resident := Resident.Library(m))]
  {
  }

  ghost predicate Linked(prr: ReconfigurableRegions, mem: MemoryLevel, n: nat)
    reads prr, mem
  {
    Filed(prr.table, mem.table, n)
  }

  ghost function Objects(prr: ReconfigurableRegions, mem: MemoryLevel): set<RrModule>
    reads prr, mem
  {
    Shared(prr.table, mem.table)
  }

  ghost function Snapshot(prr: ReconfigurableRegions, mem: MemoryLevel): map<RrModule, Module>
    reads prr, mem, Objects(prr, mem)
  {
    map o | o in Objects(prr, mem) :: o.Value()
  }

  ghost function RegionsValue(prr: ReconfigurableRegions, mem: MemoryLevel, n: nat): seq<Region>
    requires Linked(prr, mem, n)
    reads prr, mem, Objects(prr, mem)
  {
    RegionsOf(prr.table, mem.table, Snapshot(prr, mem), n)
  }

  /** What main memory has for a region is what the region's value lists. */
  lemma Stocked(prr: ReconfigurableRegions, mem: MemoryLevel, n: nat, r: nat, id: nat)
    requires Linked(prr, mem, n)
    ensures mem.Has(r, id) <==> r < n && id in RegionsValue(prr, mem, n)[r].library
    ensures mem.Has(r, id) ==> mem.table[r][id].regionId == r && mem.table[r][id].id == id
  {
    if r < n {
      LibraryKeys(prr.table, mem.table, Snapshot(prr, mem), n, r);
    }
  }

  /** A snapshot in which only one object has changed since. */
  lemma SnapshotChanged(prr: ReconfigurableRegions, mem: MemoryLevel, values: map<RrModule, Module>, m: RrModule)
    requires values.Keys == Objects(prr, mem) && m in values
    requires forall o :: o in values && o != m ==> o.Value() == values[o]
    ensures Snapshot(prr, mem) == values[m := m.Value()]
  {
  }

  lemma SameRegions(entries: Entries, library: Library, values: map<RrModule, Module>, values': map<RrModule, Module>,
                    n: nat)
    requires Filed(entries, library, n)
    requires Shared(entries, library) <= values.Keys && Shared(entries, library) <= values'.Keys
    requires forall o :: o in Shared(entries, library) ==> values[o] == values'[o]
    ensures RegionsOf(entries, library, values, n) == RegionsOf(entries, library, values', n)
  {
    forall r | 0 <= r < n
      ensures RegionOf(entries, library, values, r) == RegionOf(entries, library, values', r)
    {
      assert entries[r] in Shared(entries, library);
      assert forall m :: m in library[r] ==> library[r][m] in Shared(entries, library);
      SameRegion(entries, library, values, values', r);
    }
  }
}
