/** The indexes an application derives from its specification map. */
module Application {
  import opened Types

  /** Module ids by task type and region. */
  type Capabilities = map<string, map<nat, seq<nat>>>

  /** One task entry of the specification map: region, module, position in the module's list. */
  datatype Row = Row(region: nat, id: nat, k: nat)

  ghost predicate IsRow(specs: SpecMap, w: Row) {
    w.region in specs && w.id in specs[w.region] && w.k < |specs[w.region][w.id].tasks|
  }

  ghost function TaskAt(specs: SpecMap, w: Row): TaskSpec
    requires IsRow(specs, w)
  {
    specs[w.region][w.id].tasks[w.k]
  }

  /** Some module of the region implements the task type. */
  ghost predicate Capable(specs: SpecMap, typeId: string, region: nat) {
    exists w :: IsRow(specs, w) && w.region == region && TaskAt(specs, w).typeId == typeId
  }

  ghost predicate Listed(specs: SpecMap, seen: set<Row>, typeId: string, region: nat, id: nat) {
    exists w :: w in seen && IsRow(specs, w) && w.region == region && w.id == id && TaskAt(specs, w).typeId == typeId
  }

  ghost predicate Holds(caps: Capabilities, typeId: string, region: nat, id: nat) {
    typeId in caps && region in caps[typeId] && id in caps[typeId][region]
  }

  /** `caps` lists exactly the rows seen so far, and no empty list. */
  ghost predicate Indexes(caps: Capabilities, specs: SpecMap, seen: set<Row>) {
    && (forall t, r, m :: Holds(caps, t, r, m) <==> Listed(specs, seen, t, r, m))
    && (forall t, r :: t in caps && r in caps[t] ==> caps[t][r] != [])
    && (forall t :: t in caps ==> caps[t] != map[])
  }

  ghost function Rows(specs: SpecMap): set<Row> {
    set r, m, k | r in specs && m in specs[r] && 0 <= k < |specs[r][m].tasks| :: Row(r, m, k)
  }

  lemma RowsAll(specs: SpecMap, w: Row)
    ensures w in Rows(specs) <==> IsRow(specs, w)
  {
  }

  /** `caps` was built from all of `specs`. */
  ghost predicate CapabilitiesOf(caps: Capabilities, specs: SpecMap) {
    Indexes(caps, specs, Rows(specs))
  }

  /** Every region has a module and every module a task; the source throws otherwise. */
  ghost predicate Populated(specs: SpecMap) {
    forall r :: r in specs ==> specs[r] != map[] && forall m :: m in specs[r] ==> specs[r][m].tasks != []
  }

  function Append(caps: Capabilities, typeId: string, region: nat, id: nat): Capabilities {
    var regions: map<nat, seq<nat>> := if typeId in caps then caps[typeId] else map[];
    var ids: seq<nat> := if region in regions then regions[region] else [];
    caps[typeId := regions[region := ids + [id]]]
  }

  lemma AppendIndexes(caps: Capabilities, specs: SpecMap, seen: set<Row>, w: Row)
    requires Indexes(caps, specs, seen) && IsRow(specs, w)
    ensures Indexes(Append(caps, TaskAt(specs, w).typeId, w.region, w.id), specs, seen + {w})
  {
    var caps' := Append(caps, TaskAt(specs, w).typeId, w.region, w.id);
    forall t, r, m
      ensures Holds(caps', t, r, m) <==> Listed(specs, seen + {w}, t, r, m)
    {
      var now := t == TaskAt(specs, w).typeId && r == w.region && m == w.id;
      assert Holds(caps', t, r, m) <==> Holds(caps, t, r, m) || now;
      if now {
        assert w in seen + {w};
      }
      if Listed(specs, seen, t, r, m) {
        var v :| v in seen && IsRow(specs, v) && v.region == r && v.id == m && TaskAt(specs, v).typeId == t;
        assert v in seen + {w};
      }
    }
    assert caps'[TaskAt(specs, w).typeId][w.region] != [];
    forall t | t in caps'
      ensures caps'[t] != map[]
    {
      if t == TaskAt(specs, w).typeId {
        assert w.region in caps'[t];
      }
    }
  }

  /** The 2D lookup of which modules of which regions implement a task type; None is a throw. */
  method GetRrTaskCapabilities(specs: SpecMap) returns (r: Option<Capabilities>)
    ensures r.Some? <==> Populated(specs)
    ensures r.Some? ==> CapabilitiesOf(r.value, specs)
  {
    var caps: Capabilities := map[];
    ghost var seen: set<Row> := {};
    var regions := specs.Keys;
    while regions != {}
      invariant regions <= specs.Keys
      invariant Indexes(caps, specs, seen)
      invariant forall w :: w in seen <==> IsRow(specs, w) && w.region !in regions
      invariant forall q :: q in specs && q !in regions ==>
                  specs[q] != map[] && forall m :: m in specs[q] ==> specs[q][m].tasks != []
    {
      var region :| region in regions;
      if |specs[region]| == 0 {
        return None;
      }
      var ids := specs[region].Keys;
      while ids != {}
        invariant ids <= specs[region].Keys
        invariant Indexes(caps, specs, seen)
        invariant forall w :: w in seen <==>
                    IsRow(specs, w) && (w.region !in regions || (w.region == region && w.id !in ids))
        invariant forall m :: m in specs[region] && m !in ids ==> specs[region][m].tasks != []
      {
        var id :| id in ids;
        var tasks := specs[region][id].tasks;
        if |tasks| == 0 {
          return None;
        }
        for k := 0 to |tasks|
          invariant Indexes(caps, specs, seen)
          invariant forall w :: w in seen <==>
                      && IsRow(specs, w)
                      && (w.region !in regions || (w.region == region && (w.id !in ids || (w.id == id && w.k < k))))
        {
          AppendIndexes(caps, specs, seen, Row(region, id, k));
          caps := Append(caps, tasks[k].typeId, region, id);
          seen := seen + {Row(region, id, k)};
        }
        ids := ids - {id};
      }
      regions := regions - {region};
    }
    forall w
      ensures w in seen <==> w in Rows(specs)
    {
      RowsAll(specs, w);
    }
    assert seen == Rows(specs);
    r := Some(caps);
  }

  /** Each region's bitstream size, taken from one of its modules; None is a throw. */
  method GetRrBitstreamSizes(specs: SpecMap) returns (r: Option<map<nat, nat>>)
    ensures r.Some? <==> forall q :: q in specs ==> specs[q] != map[]
    ensures r.Some? ==>
              && r.value.Keys == specs.Keys
              && forall q :: q in specs ==> exists m :: m in specs[q] && r.value[q] == specs[q][m].width
  {
    var sizes: map<nat, nat> := map[];
    var regions := specs.Keys;
    while regions != {}
      invariant regions <= specs.Keys && sizes.Keys == specs.Keys - regions
      invariant forall q :: q in sizes ==> exists m :: m in specs[q] && sizes[q] == specs[q][m].width
    {
      var region :| region in regions;
      if |specs[region]| == 0 {
        return None;
      }
      assert specs[region].Keys != {};
      var id :| id in specs[region].Keys;
      sizes := sizes[region := specs[region][id].width];
      regions := regions - {region};
    }
    r := Some(sizes);
  }
}
