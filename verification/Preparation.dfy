/** Preparing a fresh device for an application: placeholders for its regions and the bitstream
    library in main memory, with the space the library needs. */
module Preparation {
  import opened Types
  import opened Modules
  import opened Storage

  /** What the application decoder produces: specifications filed under their own ids, and for each
      region at least one module and one bitstream size. */
  ghost predicate Decoded(specs: SpecMap) {
    && WellKeyed(specs)
    && (forall r :: r in specs ==> specs[r] != map[])
    && (forall r, a, b :: r in specs && a in specs[r] && b in specs[r] ==> specs[r][a].width == specs[r][b].width)
  }

  ghost function Sum<T(!new)>(s: set<T>, f: T -> nat): nat {
    if s == {} then 0
    else
      var x :| x in s;
      f(x) + Sum(s - {x}, f)
  }

  lemma {:induction false} SumTake<T(!new)>(s: set<T>, f: T -> nat, x: T)
    requires x in s
    ensures Sum(s, f) == f(x) + Sum(s - {x}, f)
    decreases |s|
  {
    var y :| y in s && Sum(s, f) == f(y) + Sum(s - {y}, f);
    if y != x {
      SumTake(s - {y}, f, x);
      SumTake(s - {x}, f, y);
      assert s - {y} - {x} == s - {x} - {y};
    }
  }

  ghost function Pairs(specs: SpecMap): set<(nat, nat)> {
    set r, m | r in specs && m in specs[r] :: (r, m)
  }

  /** The size of the module that main memory holds under a pair of ids. */
  ghost function StoredSize(library: Library): ((nat, nat)) -> nat {
    (p: (nat, nat)) => if p.0 in library && p.1 in library[p.0] then library[p.0][p.1].width else 0
  }

  ghost function SpecSize(specs: SpecMap): ((nat, nat)) -> nat {
    (p: (nat, nat)) => if p.0 in specs && p.1 in specs[p.0] then specs[p.0][p.1].width else 0
  }

  /** Total size of all bitstreams in the specification map. */
  ghost function TotalSize(specs: SpecMap): nat { Sum(Pairs(specs), SpecSize(specs)) }

  /** One region's part of main memory: exactly these modules, each as the library creates it. */
  ghost predicate HoldsRegion(part: map<nat, RrModule>, region: nat, modules: map<nat, ModuleSpec>)
    reads part.Values
  {
    && part.Keys == modules.Keys
    && forall m :: m in modules ==>
         part[m].Value() == NewModule(region, m, modules[m].width) && part[m].taskTypes == TaskTypes(modules[m].tasks)
  }

  /** Main memory holds exactly the specification map's modules. */
  ghost predicate HoldsModules(library: Library, specs: SpecMap)
    reads Shared(map[], library)
  {
    && library.Keys == specs.Keys
    && forall r :: r in specs ==> HoldsRegion(library[r], r, specs[r])
  }

  ghost predicate HoldsPlaceholders(entries: Entries, regions: set<nat>)
    reads entries.Values
  {
    && entries.Keys == regions
    && forall r :: r in regions ==> entries[r].Value() == NewPlaceholder(r) && entries[r].taskTypes == []
  }

  /** The modules created so far for a region, as `HoldsRegion` wants them. */
  ghost predicate HoldsPart(row: map<nat, RrModule>, region: nat, modules: map<nat, ModuleSpec>, width: nat)
    reads row.Values
  {
    && row.Keys <= modules.Keys
    && forall m :: m in row ==>
         row[m].Value() == NewModule(region, m, width) && row[m].taskTypes == TaskTypes(modules[m].tasks)
  }

  /** All objects of the two tables are among these. */
  ghost predicate OwnsEntries(entries: Entries, made: set<RrModule>) { entries.Values <= made }

  ghost predicate OwnsLibrary(library: Library, made: set<RrModule>) {
    forall r :: r in library ==> library[r].Values <= made
  }

  lemma OwnsShared(entries: Entries, library: Library, made: set<RrModule>)
    requires OwnsEntries(entries, made) && OwnsLibrary(library, made)
    ensures Shared(entries, library) <= made
  {
  }

  lemma PartGrows(row: map<nat, RrModule>, region: nat, modules: map<nat, ModuleSpec>, width: nat, entry: RrModule)
    requires HoldsPart(row, region, modules, width) && entry.id in modules
    requires entry.Value() == NewModule(region, entry.id, width)
    requires entry.taskTypes == TaskTypes(modules[entry.id].tasks)
    ensures HoldsPart(row[entry.id := entry], region, modules, width)
  {
  }

  /** A module table with one region's row added, once the row has a module. */
  ghost function WithRow(others: Library, region: nat, row: map<nat, RrModule>): Library {
    if row == map[] then others else others[region := row]
  }

  lemma RowGrows(others: Library, region: nat, row: map<nat, RrModule>, entry: RrModule)
    requires region !in others
    ensures Row(WithRow(others, region, row), region) == row
    ensures WithRow(others, region, row)[region := row[entry.id := entry]]
         == WithRow(others, region, row[entry.id := entry])
  {
    assert entry.id in row[entry.id := entry];
  }

  /** Creates one module and files it. */
  method AddEntry(region: nat, spec: ModuleSpec, width: nat, mem: MemoryLevel, ghost others: Library,
                  ghost row: map<nat, RrModule>, ghost modules: map<nat, ModuleSpec>)
    returns (entry: RrModule)
    requires region !in others && mem.table == WithRow(others, region, row)
    requires HoldsPart(row, region, modules, width) && spec.id in modules && modules[spec.id] == spec
    modifies mem
    ensures fresh(entry) && entry.id == spec.id
    ensures mem.table == WithRow(others, region, row[spec.id := entry])
    ensures HoldsPart(row[spec.id := entry], region, modules, width)
  {
    entry := new RrModule(region, spec.id, width, spec.tasks);
    RowGrows(others, region, row, entry);
    mem.InsertModule(entry);
    PartGrows(row, region, modules, width, entry);
  }

  /** Files one region's modules in main memory. */
  method FillLibrary(region: nat, modules: map<nat, ModuleSpec>, width: nat, mem: MemoryLevel)
    returns (ghost made: set<RrModule>)
    requires region !in mem.table && modules != map[]
    requires forall m :: m in modules ==> modules[m].id == m && modules[m].width == width
    modifies mem
    ensures region in mem.table && mem.table == old(mem.table)[region := mem.table[region]]
    ensures HoldsRegion(mem.table[region], region, modules)
    ensures fresh(made) && mem.table[region].Values <= made
  {
    var ids := modules.Keys;
    ghost var row: map<nat, RrModule> := map[];
    made := {};
    while ids != {}
      invariant ids <= modules.Keys && row.Keys == modules.Keys - ids
      invariant mem.table == WithRow(old(mem.table), region, row)
      invariant HoldsPart(row, region, modules, width)
      invariant fresh(made) && row.Values <= made
    {
      var id :| id in ids;
      var entry := AddEntry(region, modules[id], width, mem, old(mem.table), row, modules);
      row, made := row[id := entry], made + {entry};
      ids := ids - {id};
    }
    assert row.Keys == modules.Keys;
  }

  /** `r` is the 32-bit value of `total`. */
  predicate Wraps(r: nat, total: nat) { r == total % TWO_32 }

  method AddPlaceholder(region: nat, prr: ReconfigurableRegions, ghost regions: set<nat>)
    returns (ghost made: RrModule)
    requires HoldsPlaceholders(prr.table, regions)
    modifies prr
    ensures HoldsPlaceholders(prr.table, regions + {region})
    ensures fresh(made) && prr.table.Values <= old(prr.table.Values) + {made}
  {
    var placeholder := new RrModule.Placeholder(region);
    prr.InsertModule(placeholder);
    made := placeholder;
  }

  lemma OwnsMore(library: Library, region: nat, row: map<nat, RrModule>, made: set<RrModule>, more: set<RrModule>)
    requires OwnsLibrary(library, made) && row.Values <= more
    ensures OwnsLibrary(library[region := row], made + more)
  {
  }

  /** Adds one region's modules to the library. */
  method AddModules(region: nat, modules: map<nat, ModuleSpec>, width: nat, mem: MemoryLevel, ghost done: SpecMap,
                    ghost made: set<RrModule>) returns (ghost more: set<RrModule>)
    requires region !in done && modules != map[]
    requires forall m :: m in modules ==> modules[m].id == m && modules[m].width == width
    requires HoldsModules(mem.table, done) && OwnsLibrary(mem.table, made)
    modifies mem
    ensures HoldsModules(mem.table, done[region := modules])
    ensures fresh(more) && OwnsLibrary(mem.table, made + more)
  {
    more := FillLibrary(region, modules, width, mem);
    OwnsMore(old(mem.table), region, mem.table[region], made, more);
    forall r | r in done
      ensures HoldsRegion(mem.table[r], r, done[r])
    {
      assert old(HoldsRegion(mem.table[r], r, done[r]));
    }
  }

  /** The union of two sets of new objects is one. */
  twostate lemma BothFresh(new a: set<RrModule>, new b: set<RrModule>) returns (c: set<RrModule>)
    requires fresh(a) && fresh(b)
    ensures c == a + b && fresh(c)
  {
    c := a + b;
  }

  lemma OwnsEnough(library: Library, made: set<RrModule>, more: set<RrModule>)
    requires OwnsLibrary(library, made) && made <= more
    ensures OwnsLibrary(library, more)
  {
  }

  /** One region: its modules into main memory, its placeholder into the region table. */
  method PrepareRegion(region: nat, modules: map<nat, ModuleSpec>, width: nat, prr: ReconfigurableRegions,
                       mem: MemoryLevel, ghost done: SpecMap, ghost made: set<RrModule>)
    returns (ghost more: set<RrModule>)
    requires region !in done && modules != map[]
    requires forall m :: m in modules ==> modules[m].id == m && modules[m].width == width
    requires HoldsPlaceholders(prr.table, done.Keys) && HoldsModules(mem.table, done)
    requires OwnsEntries(prr.table, made) && OwnsLibrary(mem.table, made)
    modifies prr, mem
    ensures HoldsPlaceholders(prr.table, done[region := modules].Keys)
    ensures HoldsModules(mem.table, done[region := modules])
    ensures fresh(more) && OwnsEntries(prr.table, made + more) && OwnsLibrary(mem.table, made + more)
  {
    ghost var stored := AddModules(region, modules, width, mem, done, made);
    ghost var entry := AddPlaceholder(region, prr, done.Keys);
    assert done[region := modules].Keys == done.Keys + {region};
    more := stored + {entry};
    OwnsEnough(mem.table, made + stored, made + more);
  }

  lemma DecodedRegion(specs: SpecMap, region: nat, first: nat)
    requires Decoded(specs) && region in specs && first in specs[region]
    ensures forall m :: m in specs[region] ==>
              specs[region][m].id == m && specs[region][m].width == specs[region][first].width
  {
  }

  /** Module counts by region. */
  ghost function Census(specs: SpecMap): map<nat, nat> { map r | r in specs :: |specs[r]| }

  /** The bookkeeping after the regions of `done`: their module counts, and their total size. */
  ghost predicate Counted(census: map<nat, nat>, required: nat, done: SpecMap) {
    census == Census(done) && Wraps(required, TotalSize(done))
  }

  /** Counts one region's modules and adds up their space, in 32 bits. */
  method CountRegion(region: nat, modules: map<nat, ModuleSpec>, width: nat, census: map<nat, nat>, required: nat,
                     ghost done: SpecMap) returns (census': map<nat, nat>, required': nat)
    requires region !in done && forall m :: m in modules ==> modules[m].width == width
    requires Counted(census, required, done)
    ensures Counted(census', required', done[region := modules])
  {
    var space := |modules| * width;
    required' := (required + space) % TWO_32;
    census' := census[region := |modules|];
    AddRegion(done, region, modules, width);
    CountedNext(census, required, done, region, modules, space);
  }

  lemma CountedNext(census: map<nat, nat>, required: nat, done: SpecMap, region: nat, modules: map<nat, ModuleSpec>,
                    space: nat)
    requires Counted(census, required, done) && TotalSize(done[region := modules]) == TotalSize(done) + space
    ensures Counted(census[region := |modules|], (required + space) % TWO_32, done[region := modules])
  {
    SpaceAdds(required, TotalSize(done), space);
    CensusNext(done, region, modules);
  }

  lemma CensusNext(done: SpecMap, region: nat, modules: map<nat, ModuleSpec>)
    ensures Census(done[region := modules]) == Census(done)[region := |modules|]
  {
  }

  lemma SpaceAdds(required: nat, before: nat, space: nat)
    requires Wraps(required, before)
    ensures Wraps((required + space) % TWO_32, before + space)
  {
    ModAdd(before, space);
  }

  /** `done` is the part of the specification map outside `regions`. */
  ghost predicate IsPart(done: SpecMap, specs: SpecMap, regions: set<nat>) {
    && regions <= specs.Keys && done.Keys == specs.Keys - regions
    && forall r :: r in done ==> done[r] == specs[r]
  }

  lemma PartNext(done: SpecMap, specs: SpecMap, regions: set<nat>, region: nat)
    requires IsPart(done, specs, regions) && region in regions
    ensures region !in done && IsPart(done[region := specs[region]], specs, regions - {region})
  {
  }

  lemma PartAll(done: SpecMap, specs: SpecMap)
    requires IsPart(done, specs, {})
    ensures done == specs
  {
  }

  /** Compares the main memory's size, as its accessor reports it, with the required space. */
  method Compare(mem: MemoryLevel, required: nat, ghost total: nat) returns (fits: bool)
    requires Wraps(required, total)
    ensures fits <==> Answer(mem.unitSize, total)
    ensures total < TWO_32 && mem.unitSize < 65536 ==> (fits <==> total <= mem.unitSize)
  {
    var size := mem.GetSize();
    fits := size >= required;
  }

  /** Prepares region by region. `required` wraps at 32 bits; the answer compares it with the main
      memory's size as the 16-bit accessor reports it. */
  method PrepareAppResources(specs: SpecMap, prr: ReconfigurableRegions, mem: MemoryLevel)
    returns (fits: bool, required: nat, census: map<nat, nat>)
    requires Decoded(specs) && prr.table == map[] && mem.table == map[]
    modifies prr, mem
    ensures HoldsPlaceholders(prr.table, specs.Keys) && HoldsModules(mem.table, specs)
    ensures fresh(Objects(prr, mem))
    ensures Counted(census, required, specs)
    ensures fits <==> Answer(mem.unitSize, TotalSize(specs))
    ensures TotalSize(specs) < 0x1_0000_0000 && mem.unitSize < 65536 ==> (fits <==> TotalSize(specs) <= mem.unitSize)
  {
    required, census := 0, map[];
    var regions := specs.Keys;
    ghost var done: SpecMap, made: set<RrModule> := map[], {};
    assert Pairs(map[]) == {};
    while regions != {}
      invariant IsPart(done, specs, regions)
      invariant HoldsPlaceholders(prr.table, done.Keys) && HoldsModules(mem.table, done)
      invariant Counted(census, required, done)
      invariant fresh(made)
      invariant OwnsEntries(prr.table, made)
      invariant OwnsLibrary(mem.table, made)
    {
      var region :| region in regions;
      PartNext(done, specs, regions, region);
      var modules := specs[region];
      assert modules.Keys != {};
      var first :| first in modules.Keys;
      DecodedRegion(specs, region, first);
      census, required := CountRegion(region, modules, modules[first].width, census, required, done);
      ghost var more := PrepareRegion(region, modules, modules[first].width, prr, mem, done, made);
      made := BothFresh(made, more);
      done := done[region := modules];
      regions := regions - {region};
    }
    PartAll(done, specs);
    OwnsShared(prr.table, mem.table, made);
    fits := Compare(mem, required, TotalSize(specs));
  }

  /** The specification map's total is the total size of the modules main memory holds. */
  lemma StoredTotal(library: Library, specs: SpecMap)
    requires HoldsModules(library, specs)
    ensures Sum(Pairs(specs), StoredSize(library)) == TotalSize(specs)
  {
    forall p | p in Pairs(specs)
      ensures StoredSize(library)(p) == SpecSize(specs)(p)
    {
      assert HoldsRegion(library[p.0], p.0, specs[p.0]);
      assert library[p.0][p.1].Value().width == specs[p.0][p.1].width;
    }
    SumSame(Pairs(specs), StoredSize(library), SpecSize(specs));
  }

  lemma {:induction false} SumConstant<T(!new)>(s: set<T>, f: T -> nat, c: nat)
    requires forall x :: x in s ==> f(x) == c
    ensures Sum(s, f) == |s| * c
    decreases |s|
  {
    if s != {} {
      var x :| x in s;
      SumTake(s, f, x);
      SumConstant(s - {x}, f, c);
    }
  }

  lemma {:induction false} SumUnion<T(!new)>(a: set<T>, b: set<T>, f: T -> nat)
    requires a !! b
    ensures Sum(a + b, f) == Sum(a, f) + Sum(b, f)
    decreases |b|
  {
    if b == {} {
      assert a + b == a;
    } else {
      var x :| x in b;
      SumTake(a + b, f, x);
      SumTake(b, f, x);
      SumUnion(a, b - {x}, f);
      assert a + b - {x} == a + (b - {x});
    }
  }

  lemma {:induction false} SumSame<T(!new)>(s: set<T>, f: T -> nat, g: T -> nat)
    requires forall x :: x in s ==> f(x) == g(x)
    ensures Sum(s, f) == Sum(s, g)
    decreases |s|
  {
    if s != {} {
      var x :| x in s;
      SumTake(s, f, x);
      SumTake(s, g, x);
      SumSame(s - {x}, f, g);
    }
  }

  ghost function PairsOf(region: nat, ids: set<nat>): set<(nat, nat)> { set m | m in ids :: (region, m) }

  lemma {:induction false} PairsCount(region: nat, ids: set<nat>)
    ensures |PairsOf(region, ids)| == |ids|
    decreases |ids|
  {
    if ids != {} {
      var m :| m in ids;
      PairsCount(region, ids - {m});
      assert PairsOf(region, ids) == PairsOf(region, ids - {m}) + {(region, m)};
    }
  }

  lemma PairsAdded(done: SpecMap, region: nat, modules: map<nat, ModuleSpec>)
    requires region !in done
    ensures Pairs(done[region := modules]) == Pairs(done) + PairsOf(region, modules.Keys)
    ensures Pairs(done) !! PairsOf(region, modules.Keys)
  {
  }

  lemma SizesAdded(done: SpecMap, region: nat, modules: map<nat, ModuleSpec>, width: nat, p: (nat, nat))
    requires region !in done && forall m :: m in modules ==> modules[m].width == width
    ensures p in Pairs(done) ==> SpecSize(done[region := modules])(p) == SpecSize(done)(p)
    ensures p in PairsOf(region, modules.Keys) ==> SpecSize(done[region := modules])(p) == width
  {
  }

  /** One more region adds its module count times its bitstream size. */
  lemma AddRegion(done: SpecMap, region: nat, modules: map<nat, ModuleSpec>, width: nat)
    requires region !in done && forall m :: m in modules ==> modules[m].width == width
    ensures TotalSize(done[region := modules]) == TotalSize(done) + |modules| * width
  {
    var old', more, size := Pairs(done), PairsOf(region, modules.Keys), SpecSize(done[region := modules]);
    PairsAdded(done, region, modules);
    SumUnion(old', more, size);
    forall p | p in old' + more
      ensures (p in old' ==> size(p) == SpecSize(done)(p)) && (p in more ==> size(p) == width)
    {
      SizesAdded(done, region, modules, width, p);
    }
    SumSame(old', size, SpecSize(done));
    SumConstant(more, size, width);
    PairsCount(region, modules.Keys);
    assert |modules| == |modules.Keys|;
  }

  lemma ModAdd(a: nat, b: nat)
    ensures (a % TWO_32 + b) % TWO_32 == (a + b) % TWO_32
  {
    var q := a / TWO_32;
    assert a + b == (a % TWO_32 + b) + q * TWO_32;
    ModMultiple(a % TWO_32 + b, q);
  }

  lemma {:induction false} ModMultiple(x: nat, q: nat)
    ensures (x + q * TWO_32) % TWO_32 == x % TWO_32
  {
    if q > 0 {
      ModMultiple(x, q - 1);
      assert x + q * TWO_32 == (x + (q - 1) * TWO_32) + TWO_32;
    }
  }

  /** The answer to whether a library of this total size fits a memory of size `unit`: it sees the
      size in 16 bits and the total in 32. */
  predicate Answer(unit: nat, total: nat) { unit % 65536 >= total % TWO_32 }

  /** The answer is right for every total below 2^32 if and only if the memory's size is below
      65536. */
  lemma RightExactly(unit: nat)
    requires unit < TWO_32
    ensures (forall total: nat :: total < TWO_32 ==> (Answer(unit, total) <==> total <= unit)) <==> unit < 65536
  {
    if unit >= 65536 {
      var total := unit % 65536 + 1;
      assert total <= 65536 <= unit;
      assert !Answer(unit, total);
    }
  }

  /** For one memory and one total: a wrong no exactly between what 16 bits show and the real size,
      a wrong yes exactly when the total wraps to something 16 bits can hold. */
  lemma WrongExactly(unit: nat, total: nat)
    requires unit < TWO_32
    ensures (Answer(unit, total) <==> total <= unit) <==>
              if total < TWO_32 then !(unit % 65536 < total <= unit) else unit % 65536 < total % TWO_32
  {
    assert unit % 65536 <= unit;
  }

  /** A memory of size 65536 refuses a library of size 1, and an empty memory accepts one of size
      2^32. */
  lemma WrongAnswers()
    ensures !Answer(65536, 1) && 1 <= 65536
    ensures Answer(0, 0x1_0000_0000) && !(0x1_0000_0000 <= 0)
  {
  }
}
