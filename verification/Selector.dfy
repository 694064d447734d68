/** The LFT+FE bitstream selector: indexes built once from the specification map, and the choice
    of a region and a bitstream for a task, for any pair of comparators. */
module Selector {
  import opened Types
  import opened Application
  import opened PriorityQueue

  type SpeedIndex = map<string, map<nat, seq<Entry<real>>>>
  type RegionIndex = map<string, seq<Entry<nat>>>

  // ---------------------------------------------------------------- reference definitions

  ghost function TypesOf(specs: SpecMap, region: nat): set<string> {
    set w | w in Rows(specs) && w.region == region :: TaskAt(specs, w).typeId
  }

  /** Number of distinct task types a region's modules implement. */
  ghost function Flexibility(specs: SpecMap, region: nat): nat { |TypesOf(specs, region)| }

  /** Some entry of module `id` in the region implements the task type at this speed. */
  ghost predicate Runs(specs: SpecMap, typeId: string, region: nat, id: nat, speed: real) {
    exists w :: IsRow(specs, w) && w.region == region && w.id == id &&
      TaskAt(specs, w).typeId == typeId && TaskAt(specs, w).speed == speed
  }

  predicate Idle(busy: seq<bool>, region: nat) { region < |busy| && !busy[region] }

  /** Brute force over the specification map: an idle capable region that no other idle capable
      region outranks. */
  ghost predicate BestRegion(specs: SpecMap, busy: seq<bool>, lessFlex: (nat, nat) -> bool, typeId: string,
                             region: nat) {
    && Capable(specs, typeId, region) && Idle(busy, region)
    && forall q :: Capable(specs, typeId, q) && Idle(busy, q) ==>
         !lessFlex(Flexibility(specs, region), Flexibility(specs, q))
  }

  /** A module of the region that runs the task type, and that no other outranks in speed. */
  ghost predicate BestModule(specs: SpecMap, lessSpeed: (real, real) -> bool, typeId: string, region: nat, id: nat) {
    exists speed :: BestEntry(specs, lessSpeed, typeId, region, id, speed)
  }

  ghost predicate BestEntry(specs: SpecMap, lessSpeed: (real, real) -> bool, typeId: string, region: nat,
                            id: nat, speed: real) {
    && Runs(specs, typeId, region, id, speed)
    && forall m, v :: Runs(specs, typeId, region, m, v) ==> !lessSpeed(speed, v)
  }

  /** What the selector must answer for a task type. */
  ghost predicate Answers(specs: SpecMap, busy: seq<bool>, lessFlex: (nat, nat) -> bool,
                          lessSpeed: (real, real) -> bool, task: Node, r: Selection) {
    match r
    case Raised => task.typeId.None? || forall q :: !Capable(specs, task.typeId.value, q)
    case NotFound =>
      && task.typeId.Some? && (exists q :: Capable(specs, task.typeId.value, q))
      && forall q :: Capable(specs, task.typeId.value, q) ==> !Idle(busy, q)
    case Found(spec) =>
      task.typeId.Some? && exists region, id ::
        && BestRegion(specs, busy, lessFlex, task.typeId.value, region)
        && BestModule(specs, lessSpeed, task.typeId.value, region, id)
        && id in specs[region] && spec == specs[region][id]
  }

  // ---------------------------------------------------------------- building the indexes

  ghost predicate SpeedListed(specs: SpecMap, seen: set<Row>, typeId: string, region: nat, e: Entry<real>) {
    exists w :: w in seen && IsRow(specs, w) && w.region == region && w.id == e.id &&
      TaskAt(specs, w).typeId == typeId && TaskAt(specs, w).speed == e.key
  }

  predicate SpeedHolds(index: SpeedIndex, typeId: string, region: nat, e: Entry<real>) {
    typeId in index && region in index[typeId] && e in index[typeId][region]
  }

  ghost predicate Speeds(index: SpeedIndex, specs: SpecMap, seen: set<Row>) {
    forall t, r, e :: SpeedHolds(index, t, r, e) <==> SpeedListed(specs, seen, t, r, e)
  }

  function PushSpeed(index: SpeedIndex, typeId: string, region: nat, e: Entry<real>): SpeedIndex {
    var regions: map<nat, seq<Entry<real>>> := if typeId in index then index[typeId] else map[];
    var queue: seq<Entry<real>> := if region in regions then regions[region] else [];
    index[typeId := regions[region := queue + [e]]]
  }

  lemma PushSpeeds(index: SpeedIndex, specs: SpecMap, seen: set<Row>, w: Row)
    requires Speeds(index, specs, seen) && IsRow(specs, w)
    ensures Speeds(PushSpeed(index, TaskAt(specs, w).typeId, w.region, Entry(w.id, TaskAt(specs, w).speed)), specs,
                   seen + {w})
  {
    var task := TaskAt(specs, w);
    var index' := PushSpeed(index, task.typeId, w.region, Entry(w.id, task.speed));
    forall t, r, e
      ensures SpeedHolds(index', t, r, e) <==> SpeedListed(specs, seen + {w}, t, r, e)
    {
      var now := t == task.typeId && r == w.region && e == Entry(w.id, task.speed as real);
      assert SpeedHolds(index', t, r, e) <==> SpeedHolds(index, t, r, e) || now;
      if now {
        assert w in seen + {w};
      }
      if SpeedListed(specs, seen, t, r, e) {
        var v :| v in seen && IsRow(specs, v) && v.region == r && v.id == e.id &&
                 TaskAt(specs, v).typeId == t && TaskAt(specs, v).speed == e.key;
        assert v in seen + {w};
      }
    }
  }

  method GetBsSpeedMap(specs: SpecMap) returns (index: SpeedIndex)
    ensures Speeds(index, specs, Rows(specs))
  {
    index := map[];
    ghost var seen: set<Row> := {};
    var regions := specs.Keys;
    while regions != {}
      invariant regions <= specs.Keys
      invariant Speeds(index, specs, seen)
      invariant forall w :: w in seen <==> IsRow(specs, w) && w.region !in regions
    {
      var region :| region in regions;
      var ids := specs[region].Keys;
      while ids != {}
        invariant ids <= specs[region].Keys
        invariant Speeds(index, specs, seen)
        invariant forall w :: w in seen <==>
                    IsRow(specs, w) && (w.region !in regions || (w.region == region && w.id !in ids))
      {
        var id :| id in ids;
        var tasks := specs[region][id].tasks;
        for k := 0 to |tasks|
          invariant Speeds(index, specs, seen)
          invariant forall w :: w in seen <==>
                      && IsRow(specs, w)
                      && (w.region !in regions || (w.region == region && (w.id !in ids || (w.id == id && w.k < k))))
        {
          PushSpeeds(index, specs, seen, Row(region, id, k));
          index := PushSpeed(index, tasks[k].typeId, region, Entry(id, tasks[k].speed));
          seen := seen + {Row(region, id, k)};
        }
        ids := ids - {id};
      }
      regions := regions - {region};
    }
    forall w
      ensures w in seen <==> w in Rows(specs)
    {
      RowsAll(specs, w);
    }
    assert seen == Rows(specs);
  }

  /** The type occurs in a module of the region that is not in `ids`, or in the first `k` entries
      of module `id`. */
  ghost predicate TypeSeen(specs: SpecMap, region: nat, ids: set<nat>, id: nat, k: nat, typeId: string) {
    exists w :: IsRow(specs, w) && w.region == region && TaskAt(specs, w).typeId == typeId &&
      (w.id !in ids || (w.id == id && w.k < k))
  }

  ghost predicate TypesSeen(specs: SpecMap, region: nat, ids: set<nat>, id: nat, k: nat, types: set<string>) {
    forall t :: t in types <==> TypeSeen(specs, region, ids, id, k, t)
  }

  method GetRrTaskFlexibilities(specs: SpecMap) returns (flex: map<nat, nat>)
    ensures flex.Keys == specs.Keys
    ensures forall r :: r in specs ==> flex[r] == Flexibility(specs, r)
  {
    flex := map[];
    var regions := specs.Keys;
    while regions != {}
      invariant regions <= specs.Keys && flex.Keys == specs.Keys - regions
      invariant forall r :: r in flex ==> flex[r] == Flexibility(specs, r)
    {
      var region :| region in regions;
      var types: set<string> := {};
      var ids := specs[region].Keys;
      while ids != {}
        invariant ids <= specs[region].Keys
        invariant TypesSeen(specs, region, ids, 0, 0, types)
      {
        var id :| id in ids;
        var tasks := specs[region][id].tasks;
        for k := 0 to |tasks|
          invariant TypesSeen(specs, region, ids, id, k, types)
        {
          AddType(specs, region, ids, id, k, types);
          types := types + {tasks[k].typeId};
        }
        ModuleDone(specs, region, ids, id, types);
        ids := ids - {id};
      }
      AllTypes(specs, region, types);
      flex := flex[region := |types|];
      regions := regions - {region};
    }
  }

  lemma AddType(specs: SpecMap, region: nat, ids: set<nat>, id: nat, k: nat, types: set<string>)
    requires IsRow(specs, Row(region, id, k)) && TypesSeen(specs, region, ids, id, k, types)
    ensures TypesSeen(specs, region, ids, id, k + 1, types + {TaskAt(specs, Row(region, id, k)).typeId})
  {
    var row := Row(region, id, k);
    forall t
      ensures t in types + {TaskAt(specs, row).typeId} <==> TypeSeen(specs, region, ids, id, k + 1, t)
    {
      if t == TaskAt(specs, row).typeId {
        assert IsRow(specs, row) && row.id == id && row.k < k + 1;
      }
      if TypeSeen(specs, region, ids, id, k, t) {
        var w :| IsRow(specs, w) && w.region == region && TaskAt(specs, w).typeId == t &&
                 (w.id !in ids || (w.id == id && w.k < k));
        assert w.id !in ids || (w.id == id && w.k < k + 1);
      }
      if TypeSeen(specs, region, ids, id, k + 1, t) {
        var w :| IsRow(specs, w) && w.region == region && TaskAt(specs, w).typeId == t &&
                 (w.id !in ids || (w.id == id && w.k < k + 1));
        assert w == row || w.id !in ids || (w.id == id && w.k < k);
      }
    }
  }

  lemma ModuleDone(specs: SpecMap, region: nat, ids: set<nat>, id: nat, types: set<string>)
    requires region in specs && id in specs[region]
    requires TypesSeen(specs, region, ids, id, |specs[region][id].tasks|, types)
    ensures TypesSeen(specs, region, ids - {id}, 0, 0, types)
  {
    forall t
      ensures t in types <==> TypeSeen(specs, region, ids - {id}, 0, 0, t)
    {
      if TypeSeen(specs, region, ids, id, |specs[region][id].tasks|, t) {
        var w :| IsRow(specs, w) && w.region == region && TaskAt(specs, w).typeId == t &&
                 (w.id !in ids || (w.id == id && w.k < |specs[region][id].tasks|));
        assert w.id !in ids - {id};
      }
    }
  }

  lemma AllTypes(specs: SpecMap, region: nat, types: set<string>)
    requires TypesSeen(specs, region, {}, 0, 0, types)
    ensures types == TypesOf(specs, region)
  {
    forall t
      ensures t in types <==> t in TypesOf(specs, region)
    {
      if TypeSeen(specs, region, {}, 0, 0, t) {
        var w :| IsRow(specs, w) && w.region == region && TaskAt(specs, w).typeId == t;
        RowsAll(specs, w);
      }
      if t in TypesOf(specs, region) {
        var w :| w in Rows(specs) && w.region == region && TaskAt(specs, w).typeId == t;
        assert IsRow(specs, w) && w.id !in {};
      }
    }
  }

  /** One entry for each of the regions, keyed by its flexibility. */
  ghost predicate QueueOf(queue: seq<Entry<nat>>, regions: set<nat>, flex: map<nat, nat>) {
    && (forall e :: e in queue ==> e.id in regions && e.id in flex && e.key == flex[e.id])
    && (forall r :: r in regions ==> exists e :: e in queue && e.id == r)
  }

  lemma PushRegion(queue: seq<Entry<nat>>, regions: set<nat>, flex: map<nat, nat>, region: nat)
    requires QueueOf(queue, regions, flex) && region in flex
    ensures QueueOf(queue + [Entry(region, flex[region])], regions + {region}, flex)
  {
    var queue' := queue + [Entry(region, flex[region])];
    assert queue'[|queue|] == Entry(region, flex[region]);
    forall r | r in regions
      ensures exists e :: e in queue' && e.id == r
    {
      var e :| e in queue && e.id == r;
      assert e in queue';
    }
  }

  /** None when a listed region has no specification: the source's lookup throws. */
  method GetLftRrMap(specs: SpecMap, caps: Capabilities) returns (index: Option<RegionIndex>)
    ensures index.None? <==> exists t, r :: t in caps && r in caps[t] && r !in specs
    ensures index.Some? ==>
              index.value.Keys == caps.Keys
              && forall t :: t in caps ==> QueueOf(index.value[t], caps[t].Keys,
                                                   map r | r in specs :: Flexibility(specs, r))
  {
    var flex := GetRrTaskFlexibilities(specs);
    assert flex == map r | r in specs :: Flexibility(specs, r);
    var out: RegionIndex := map[];
    var types := caps.Keys;
    while types != {}
      invariant types <= caps.Keys && out.Keys == caps.Keys - types
      invariant forall t, r :: t in out && r in caps[t] ==> r in specs
      invariant forall t :: t in out ==> QueueOf(out[t], caps[t].Keys, flex)
    {
      var typeId :| typeId in types;
      var queue: seq<Entry<nat>> := [];
      var regions := caps[typeId].Keys;
      while regions != {}
        invariant regions <= caps[typeId].Keys
        invariant forall r :: r in caps[typeId] && r !in regions ==> r in specs
        invariant QueueOf(queue, caps[typeId].Keys - regions, flex)
      {
        var region :| region in regions;
        if region !in flex {
          return None;
        }
        PushRegion(queue, caps[typeId].Keys - regions, flex, region);
        queue := queue + [Entry(region, flex[region])];
        assert caps[typeId].Keys - (regions - {region}) == (caps[typeId].Keys - regions) + {region};
        regions := regions - {region};
      }
      assert caps[typeId].Keys - regions == caps[typeId].Keys;
      out := out[typeId := queue];
      types := types - {typeId};
    }
    index := Some(out);
  }

  // ---------------------------------------------------------------- the selector

  lemma CapableListed(specs: SpecMap, caps: Capabilities, typeId: string, region: nat)
    requires CapabilitiesOf(caps, specs)
    ensures Capable(specs, typeId, region) <==> typeId in caps && region in caps[typeId]
  {
    if Capable(specs, typeId, region) {
      var w :| IsRow(specs, w) && w.region == region && TaskAt(specs, w).typeId == typeId;
      RowsAll(specs, w);
      assert Listed(specs, Rows(specs), typeId, region, w.id);
      assert Holds(caps, typeId, region, w.id);
    }
    if typeId in caps && region in caps[typeId] {
      assert Holds(caps, typeId, region, caps[typeId][region][0]);
      assert Listed(specs, Rows(specs), typeId, region, caps[typeId][region][0]);
    }
  }

  lemma TypeListed(specs: SpecMap, caps: Capabilities, typeId: string)
    requires CapabilitiesOf(caps, specs)
    ensures (exists q :: Capable(specs, typeId, q)) <==> typeId in caps
  {
    if typeId in caps {
      assert caps[typeId].Keys != {};
      var q :| q in caps[typeId];
      CapableListed(specs, caps, typeId, q);
    }
    if q :| Capable(specs, typeId, q) {
      CapableListed(specs, caps, typeId, q);
    }
  }

  lemma RunsQueued(index: SpeedIndex, specs: SpecMap, typeId: string, region: nat, id: nat, speed: real)
    requires Speeds(index, specs, Rows(specs))
    ensures Runs(specs, typeId, region, id, speed) <==> SpeedHolds(index, typeId, region, Entry(id, speed))
  {
    if Runs(specs, typeId, region, id, speed) {
      var w :| IsRow(specs, w) && w.region == region && w.id == id &&
               TaskAt(specs, w).typeId == typeId && TaskAt(specs, w).speed == speed;
      RowsAll(specs, w);
      assert SpeedListed(specs, Rows(specs), typeId, region, Entry(id, speed));
    }
    if SpeedHolds(index, typeId, region, Entry(id, speed)) {
      assert SpeedListed(specs, Rows(specs), typeId, region, Entry(id, speed));
    }
  }

  lemma SpeedQueue(index: SpeedIndex, specs: SpecMap, typeId: string, region: nat)
    requires Speeds(index, specs, Rows(specs)) && Capable(specs, typeId, region)
    ensures typeId in index && region in index[typeId] && index[typeId][region] != []
  {
    var w :| IsRow(specs, w) && w.region == region && TaskAt(specs, w).typeId == typeId;
    assert Runs(specs, typeId, region, w.id, TaskAt(specs, w).speed);
    RunsQueued(index, specs, typeId, region, w.id, TaskAt(specs, w).speed);
  }

  class LftFeSelector {
    const specs: SpecMap
    const lessFlex: (nat, nat) -> bool
    const lessSpeed: (real, real) -> bool
    const speeds: SpeedIndex
    const regions: RegionIndex

    ghost predicate Valid() {
      && StrictOrder(lessFlex) && StrictOrder(lessSpeed)
      && Speeds(speeds, specs, Rows(specs))
      && (forall t :: t in regions <==> exists q :: Capable(specs, t, q))
      && (forall t :: t in regions ==>
            && (forall e :: e in regions[t] ==> Capable(specs, t, e.id) && e.key == Flexibility(specs, e.id))
            && (forall q :: Capable(specs, t, q) ==> exists e :: e in regions[t] && e.id == q))
    }

    /** From a specification map and the capability index built from it: no lookup fails. */
    constructor (specs: SpecMap, caps: Capabilities, lessFlex: (nat, nat) -> bool, lessSpeed: (real, real) -> bool)
      requires CapabilitiesOf(caps, specs) && StrictOrder(lessFlex) && StrictOrder(lessSpeed)
      ensures Valid() && this.specs == specs && this.lessFlex == lessFlex && this.lessSpeed == lessSpeed
    {
      var index := GetBsSpeedMap(specs);
      var lft := GetLftRrMap(specs, caps);
      forall t, r | t in caps && r in caps[t]
        ensures r in specs
      {
        CapableListed(specs, caps, t, r);
      }
      forall t
        ensures t in lft.value <==> exists q :: Capable(specs, t, q)
      {
        TypeListed(specs, caps, t);
      }
      forall t | t in lft.value
        ensures forall e :: e in lft.value[t] ==> Capable(specs, t, e.id) && e.key == Flexibility(specs, e.id)
        ensures forall q :: Capable(specs, t, q) ==> exists e :: e in lft.value[t] && e.id == q
      {
        forall q
          ensures Capable(specs, t, q) <==> t in caps && q in caps[t]
        {
          CapableListed(specs, caps, t, q);
        }
      }
      this.specs, this.lessFlex, this.lessSpeed := specs, lessFlex, lessSpeed;
      this.speeds, this.regions := index, lft.value;
    }

    /** The region for a task type: the best idle one, none, or an error for an unknown type. */
    method GetRrForTask(typeId: string, busy: seq<bool>) returns (known: bool, region: Option<nat>)
      requires Valid() && forall q: nat :: Capable(specs, typeId, q) ==> q < |busy|
      ensures known <==> exists q :: Capable(specs, typeId, q)
      ensures known && region.Some? ==> BestRegion(specs, busy, lessFlex, typeId, region.value)
      ensures known && region.None? ==> forall q :: Capable(specs, typeId, q) ==> !Idle(busy, q)
    {
      if typeId !in regions {
        return false, None;
      }
      known := true;
      var queue := regions[typeId];
      while queue != []
        invariant forall e :: e in queue ==> e in regions[typeId]
        invariant forall e :: e in regions[typeId] && e !in queue ==> !Idle(busy, e.id)
        decreases |queue|
      {
        var top := Top(queue, lessFlex);
        if !busy[top.id] {
          forall q | Capable(specs, typeId, q) && Idle(busy, q)
            ensures !lessFlex(Flexibility(specs, top.id), Flexibility(specs, q))
          {
            var e :| e in regions[typeId] && e.id == q;
          }
          return true, Some(top.id);
        }
        queue := Pop(queue, lessFlex);
      }
      forall q | Capable(specs, typeId, q)
        ensures !Idle(busy, q)
      {
        var e :| e in regions[typeId] && e.id == q;
      }
      region := None;
    }

    /** Agrees with the brute-force search of the specification map. */
    method GetBitstreamForTask(task: Node, busy: seq<bool>) returns (r: Selection)
      requires Valid()
      requires task.typeId.Some? ==> forall q: nat :: Capable(specs, task.typeId.value, q) ==> q < |busy|
      ensures Answers(specs, busy, lessFlex, lessSpeed, task, r)
    {
      if task.typeId.None? {
        return Raised;
      }
      var typeId := task.typeId.value;
      var known, choice := GetRrForTask(typeId, busy);
      if !known {
        return Raised;
      }
      if choice.None? {
        return NotFound;
      }
      var region := choice.value;
      SpeedQueue(speeds, specs, typeId, region);
      var top := Top(speeds[typeId][region], lessSpeed);
      forall m, v | Runs(specs, typeId, region, m, v)
        ensures !lessSpeed(top.key, v)
      {
        RunsQueued(speeds, specs, typeId, region, m, v);
      }
      RunsQueued(speeds, specs, typeId, region, top.id, top.key);
      assert BestEntry(specs, lessSpeed, typeId, region, top.id, top.key);
      r := Found(specs[region][top.id]);
    }
  }

  /** Some module of the specification map implements the task type, in a region that `idle`
      accepts. */
  ghost predicate Available(specs: SpecMap, typeId: string, idle: nat -> bool) {
    exists r: nat, m: nat :: r in specs && m in specs[r] && Implements(specs[r][m], typeId) && idle(r)
  }

  lemma AvailableCapable(specs: SpecMap, typeId: string, idle: nat -> bool)
    ensures Available(specs, typeId, idle) <==> exists q: nat :: Capable(specs, typeId, q) && idle(q)
  {
    if Available(specs, typeId, idle) {
      var r: nat, m: nat :| r in specs && m in specs[r] && Implements(specs[r][m], typeId) && idle(r);
      var k :| 0 <= k < |specs[r][m].tasks| && specs[r][m].tasks[k].typeId == typeId;
      assert IsRow(specs, Row(r, m, k)) && TaskAt(specs, Row(r, m, k)).typeId == typeId;
      assert Capable(specs, typeId, r);
    }
    if q: nat :| Capable(specs, typeId, q) && idle(q) {
      var w :| IsRow(specs, w) && w.region == q && TaskAt(specs, w).typeId == typeId;
      assert specs[w.region][w.id].tasks[w.k].typeId == typeId;
      assert Implements(specs[w.region][w.id], typeId);
    }
  }

  /** Which of the three answers comes when: an error exactly for a task without a type or a type
      no module implements, a bitstream exactly when an idle region can run the type. */
  lemma AnswerKinds(specs: SpecMap, busy: seq<bool>, lessFlex: (nat, nat) -> bool, lessSpeed: (real, real) -> bool,
                    task: Node, r: Selection)
    requires Answers(specs, busy, lessFlex, lessSpeed, task, r)
    ensures r.Raised? <==> task.typeId.None? || !Available(specs, task.typeId.value, (q: nat) => true)
    ensures r.Found? <==> task.typeId.Some? && Available(specs, task.typeId.value, (q: nat) => Idle(busy, q))
    ensures r.Found? ==> Implements(r.spec, task.typeId.value)
  {
    if task.typeId.Some? {
      var typeId := task.typeId.value;
      AvailableCapable(specs, typeId, (q: nat) => true);
      AvailableCapable(specs, typeId, (q: nat) => Idle(busy, q));
      if r.Found? {
        FoundImplements(specs, busy, lessFlex, lessSpeed, task, r);
      }
    }
  }

  lemma FoundImplements(specs: SpecMap, busy: seq<bool>, lessFlex: (nat, nat) -> bool, lessSpeed: (real, real) -> bool,
                        task: Node, r: Selection)
    requires Answers(specs, busy, lessFlex, lessSpeed, task, r) && r.Found?
    ensures Implements(r.spec, task.typeId.value)
    ensures exists q: nat :: Capable(specs, task.typeId.value, q) && Idle(busy, q)
  {
    var region, id :|
      && BestRegion(specs, busy, lessFlex, task.typeId.value, region)
      && BestModule(specs, lessSpeed, task.typeId.value, region, id)
      && id in specs[region] && r.spec == specs[region][id];
    var speed :| BestEntry(specs, lessSpeed, task.typeId.value, region, id, speed);
    var w :| IsRow(specs, w) && w.region == region && w.id == id && TaskAt(specs, w).typeId == task.typeId.value;
    assert r.spec.tasks[w.k].typeId == task.typeId.value;
    assert Capable(specs, task.typeId.value, region) && Idle(busy, region);
  }

  /** No bitstream is found exactly when the type is known but every region that can run it is
      busy. */
  lemma NotFoundExactly(specs: SpecMap, busy: seq<bool>, lessFlex: (nat, nat) -> bool,
                        lessSpeed: (real, real) -> bool, task: Node, r: Selection)
    requires Answers(specs, busy, lessFlex, lessSpeed, task, r)
    ensures r.NotFound? <==>
              && task.typeId.Some? && (exists q :: Capable(specs, task.typeId.value, q))
              && forall q :: Capable(specs, task.typeId.value, q) ==> !Idle(busy, q)
  {
    if r.Found? {
      FoundImplements(specs, busy, lessFlex, lessSpeed, task, r);
    }
  }

  /** A found bitstream is the best one of the best idle region. */
  lemma FoundBest(specs: SpecMap, busy: seq<bool>, lessFlex: (nat, nat) -> bool, lessSpeed: (real, real) -> bool,
                  task: Node, r: Selection)
    requires WellKeyed(specs) && Answers(specs, busy, lessFlex, lessSpeed, task, r) && r.Found?
    ensures BestRegion(specs, busy, lessFlex, task.typeId.value, r.spec.regionId)
    ensures BestModule(specs, lessSpeed, task.typeId.value, r.spec.regionId, r.spec.id)
    ensures Implements(r.spec, task.typeId.value)
  {
    var region, id :|
      && BestRegion(specs, busy, lessFlex, task.typeId.value, region)
      && BestModule(specs, lessSpeed, task.typeId.value, region, id)
      && id in specs[region] && r.spec == specs[region][id];
    FoundImplements(specs, busy, lessFlex, lessSpeed, task, r);
  }

  // ---------------------------------------------------------------- the comparators as coded

  const CODED_FLEX: (nat, nat) -> bool := (a, b) => a < b
  const CODED_SPEED: (real, real) -> bool := (a, b) => a > b

  /** What the selection policy intends: least flexible region, fastest bitstream. */
  const INTENDED_FLEX: (nat, nat) -> bool := (a, b) => a > b
  const INTENDED_SPEED: (real, real) -> bool := (a, b) => a < b

  lemma CodedOrders()
    ensures StrictOrder(CODED_FLEX) && StrictOrder(CODED_SPEED)
  {
  }

  /** A priority queue keeps its greatest element on top, so the coded comparators pick the most
      flexible idle region; it is a least flexible one exactly when all idle capable regions tie. */
  lemma IntentOfRegion(specs: SpecMap, busy: seq<bool>, typeId: string, region: nat)
    requires BestRegion(specs, busy, CODED_FLEX, typeId, region)
    ensures BestRegion(specs, busy, INTENDED_FLEX, typeId, region) <==>
              forall p, q ::
                Capable(specs, typeId, p) && Idle(busy, p) && Capable(specs, typeId, q) && Idle(busy, q) ==>
                Flexibility(specs, p) == Flexibility(specs, q)
  {
  }

  /** Likewise the slowest entry of the region is chosen: a fastest one exactly when all tie. */
  lemma IntentOfModule(specs: SpecMap, typeId: string, region: nat, id: nat, speed: real)
    requires BestEntry(specs, CODED_SPEED, typeId, region, id, speed)
    ensures BestEntry(specs, INTENDED_SPEED, typeId, region, id, speed) <==>
              forall m, n, u, v :: Runs(specs, typeId, region, m, u) && Runs(specs, typeId, region, n, v) ==> u == v
  {
  }

  function ModuleFor(region: nat, id: nat, types: seq<string>, speed: Speed): ModuleSpec {
    ModuleSpec(region, id, 1,
               seq(|types|, k requires 0 <= k < |types| => TaskSpec(region, id, types[k], speed, 1)))
  }

  /** Two regions, the second able to run one more task type. */
  function TwoRegions(): SpecMap {
    map[0 := map[0 := ModuleFor(0, 0, ["a"], 100.0)], 1 := map[0 := ModuleFor(1, 0, ["a", "b"], 100.0)]]
  }

  /** One region with a slow and a fast module for the same task type. */
  function TwoSpeeds(): SpecMap {
    map[0 := map[0 := ModuleFor(0, 0, ["a"], 100.0), 1 := ModuleFor(0, 1, ["a"], 200.0)]]
  }

  lemma TwoRegionsTypes()
    ensures Flexibility(TwoRegions(), 0) == 1 && Flexibility(TwoRegions(), 1) == 2
    ensures Capable(TwoRegions(), "a", 0) && Capable(TwoRegions(), "a", 1)
  {
    var specs := TwoRegions();
    assert IsRow(specs, Row(0, 0, 0)) && TaskAt(specs, Row(0, 0, 0)).typeId == "a";
    assert IsRow(specs, Row(1, 0, 0)) && TaskAt(specs, Row(1, 0, 0)).typeId == "a";
    assert IsRow(specs, Row(1, 0, 1)) && TaskAt(specs, Row(1, 0, 1)).typeId == "b";
    assert TypesOf(specs, 0) == {"a"} by {
      assert Row(0, 0, 0) in Rows(specs);
    }
    assert TypesOf(specs, 1) == {"a", "b"} by {
      assert Row(1, 0, 0) in Rows(specs) && Row(1, 0, 1) in Rows(specs);
    }
    assert |{"a"}| == 1 && |{"a", "b"}| == 2;
  }

  /** With both regions idle the coded comparator chooses the more flexible one and only it, which
      is not a least flexible one. */
  lemma MoreFlexibleChosen(region: nat)
    ensures BestRegion(TwoRegions(), [false, false], CODED_FLEX, "a", region) <==> region == 1
    ensures BestRegion(TwoRegions(), [false, false], INTENDED_FLEX, "a", region) <==> region == 0
  {
    TwoRegionsTypes();
    assert Idle([false, false], 0) && Idle([false, false], 1);
    assert forall q: nat :: Idle([false, false], q) ==> q == 0 || q == 1;
  }

  /** With the more flexible region busy the other one is chosen, and only it. */
  lemma BusyPassedOver(region: nat)
    ensures BestRegion(TwoRegions(), [false, true], CODED_FLEX, "a", region) <==> region == 0
    ensures BestRegion(TwoRegions(), [true, false], CODED_FLEX, "a", region) <==> region == 1
    ensures !BestRegion(TwoRegions(), [true, true], CODED_FLEX, "a", region)
  {
    TwoRegionsTypes();
    assert Idle([false, true], 0) && Idle([true, false], 1);
    assert forall q: nat :: Idle([false, true], q) ==> q == 0;
    assert forall q: nat :: Idle([true, false], q) ==> q == 1;
  }

  lemma TwoSpeedsRuns(id: nat, speed: real)
    ensures Runs(TwoSpeeds(), "a", 0, id, speed) <==> (id == 0 && speed == 100.0) || (id == 1 && speed == 200.0)
  {
    var specs := TwoSpeeds();
    assert IsRow(specs, Row(0, 0, 0)) && TaskAt(specs, Row(0, 0, 0)).speed == 100.0;
    assert IsRow(specs, Row(0, 1, 0)) && TaskAt(specs, Row(0, 1, 0)).speed == 200.0;
    forall w | IsRow(specs, w) && w.region == 0
      ensures w == Row(0, 0, 0) || w == Row(0, 1, 0)
    {
    }
  }

  /** Of the two modules the coded comparator chooses the slow one and only it, which is not a
      fastest one. */
  lemma SlowerChosen(id: nat, speed: real)
    ensures BestEntry(TwoSpeeds(), CODED_SPEED, "a", 0, id, speed) <==> id == 0 && speed == 100.0
    ensures BestEntry(TwoSpeeds(), INTENDED_SPEED, "a", 0, id, speed) <==> id == 1 && speed == 200.0
  {
    forall m: nat, v
      ensures Runs(TwoSpeeds(), "a", 0, m, v) <==> (m == 0 && v == 100.0) || (m == 1 && v == 200.0)
    {
      TwoSpeedsRuns(m, v);
    }
    assert Runs(TwoSpeeds(), "a", 0, 0, 100.0) && Runs(TwoSpeeds(), "a", 0, 1, 200.0);
  }
}
