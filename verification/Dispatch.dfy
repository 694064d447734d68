/** What the scheduler dispatches: along a run every queue entry stands for one walk of the task
    graph, so the dispatches of a task are the distinct walks from a start node to it. */
module Dispatch {
  import opened Types
  import opened Scheduler

  type Walk = seq<string>

  /** A walk from a start node that never returns to a start node. */
  ghost predicate IsWalk(g: TaskGraph, w: Walk) {
    && w != [] && w[0] in g.starts
    && forall k :: 0 < k < |w| ==> w[k] in Fresh(g, w[k - 1])
  }

  /** No walk meets a task twice. */
  ghost predicate Acyclic(g: TaskGraph) {
    forall w :: IsWalk(g, w) ==> Unique(w)
  }

  function Last(w: Walk): string { if w == [] then "" else w[|w| - 1] }

  function Keys(ws: seq<Walk>): seq<string> {
    seq(|ws|, k requires 0 <= k < |ws| => Last(ws[k]))
  }

  function Extend(w: Walk, keys: seq<string>): seq<Walk> {
    seq(|keys|, k requires 0 <= k < |keys| => w + [keys[k]])
  }

  /** The dispatches so far and the queue, with every entry's walk. */
  datatype Trail = Trail(done: seq<Walk>, queue: seq<Walk>)

  function Start(g: TaskGraph): Trail {
    Trail([], seq(|g.starts|, k requires 0 <= k < |g.starts| => [g.starts[k]]))
  }

  function Advance(g: TaskGraph, t: Trail): Trail
    requires t.queue != []
  {
    Trail(t.done + [t.queue[0]], t.queue[1..] + Extend(t.queue[0], Fresh(g, Last(t.queue[0]))))
  }

  /** After `n` dispatches, or fewer when the queue drains. */
  function After(g: TaskGraph, n: nat): Trail {
    if n == 0 then Start(g)
    else
      var t := After(g, n - 1);
      if t.queue == [] then t else Advance(g, t)
  }

  /** The key queue of the scheduler is the trail's queue, and moves with it. */
  lemma QueueFollows(g: TaskGraph, t: Trail)
    requires t.queue != []
    ensures Keys(t.queue) != [] && Keys(Advance(g, t).queue) == Next(g, Keys(t.queue))
    ensures Keys(Advance(g, t).done) == Keys(t.done) + [Keys(t.queue)[0]]
  {
    assert Keys(t.queue)[0] == Last(t.queue[0]);
  }

  lemma StartFollows(g: TaskGraph)
    ensures Keys(Start(g).queue) == g.starts
  {
  }

  // ---------------------------------------------------------------- the trail invariant

  function All(t: Trail): seq<Walk> { t.done + t.queue }

  ghost predicate Walks(g: TaskGraph, t: Trail) {
    Unique(All(t)) && forall x :: x in All(t) ==> IsWalk(g, x)
  }

  /** Lengths never decrease, and the queue spans at most two consecutive lengths. */
  predicate Levelled(t: Trail) {
    && (forall a, b :: 0 <= a < b < |All(t)| ==> |All(t)[a]| <= |All(t)[b]|)
    && (t.queue != [] ==> |t.queue[|t.queue| - 1]| <= |t.queue[0]| + 1)
  }

  ghost predicate Parents(t: Trail) {
    forall x :: x in All(t) && |x| > 1 ==> x[..|x| - 1] in t.done
  }

  /** Every extension of the dispatch at position `a` comes later. */
  ghost predicate Continued(g: TaskGraph, t: Trail, a: nat)
    requires a < |t.done|
  {
    forall c :: c in Fresh(g, Last(t.done[a])) ==> exists b :: a < b < |All(t)| && All(t)[b] == t.done[a] + [c]
  }

  ghost predicate Complete(g: TaskGraph, t: Trail) {
    && (forall s :: s in g.starts ==> [s] in All(t))
    && (forall a :: 0 <= a < |t.done| ==> Continued(g, t, a))
  }

  ghost predicate Good(g: TaskGraph, t: Trail) {
    Walks(g, t) && Levelled(t) && Parents(t) && Complete(g, t)
  }

  lemma {:induction false} WithoutUnique(keys: seq<string>, lookup: set<string>)
    requires Unique(keys)
    ensures Unique(Without(keys, lookup))
    ensures forall c :: c in Without(keys, lookup) <==> c in keys && c !in lookup
  {
    if keys != [] {
      var k := |keys| - 1;
      assert keys == keys[..k] + [keys[k]];
      WithoutUnique(keys[..k], lookup);
    }
  }

  lemma FreshUnique(g: TaskGraph, key: string)
    requires WellFormed(g)
    ensures Unique(Fresh(g, key))
    ensures forall c :: c in Fresh(g, key) <==> c in Children(g, key) && c !in g.starts
    ensures forall c :: c in Fresh(g, key) ==> c in g.children
  {
    WithoutUnique(Children(g, key), set s | s in g.starts);
  }

  /** With no edge into a start node nothing is filtered: walks are the graph's paths. */
  lemma FreshIsChildren(g: TaskGraph, key: string)
    requires WellFormed(g)
    requires forall k, s :: s in g.starts ==> s !in Children(g, k)
    ensures forall c :: c in Fresh(g, key) <==> c in Children(g, key)
  {
    FreshUnique(g, key);
  }

  lemma StartAll(g: TaskGraph)
    ensures |All(Start(g))| == |g.starts|
    ensures forall k :: 0 <= k < |g.starts| ==> All(Start(g))[k] == [g.starts[k]]
  {
  }

  lemma StartWalks(g: TaskGraph)
    requires WellFormed(g)
    ensures Walks(g, Start(g))
  {
    StartAll(g);
    var all := All(Start(g));
    forall a, b | 0 <= a < b < |all|
      ensures all[a] != all[b]
    {
      assert all[a][0] == g.starts[a] && all[b][0] == g.starts[b];
    }
  }

  lemma StartComplete(g: TaskGraph)
    ensures Complete(g, Start(g))
  {
    StartAll(g);
    forall s | s in g.starts
      ensures [s] in All(Start(g))
    {
      var k :| 0 <= k < |g.starts| && g.starts[k] == s;
      assert All(Start(g))[k] == [s];
    }
  }

  lemma StartGood(g: TaskGraph)
    requires WellFormed(g)
    ensures Good(g, Start(g))
  {
    StartAll(g);
    StartWalks(g);
    StartComplete(g);
  }

  lemma AdvanceAll(g: TaskGraph, t: Trail)
    requires t.queue != []
    ensures All(Advance(g, t)) == All(t) + Extend(t.queue[0], Fresh(g, Last(t.queue[0])))
  {
    assert t.queue == [t.queue[0]] + t.queue[1..];
  }

  lemma ExtendUnique(w: Walk, keys: seq<string>)
    requires Unique(keys)
    ensures Unique(Extend(w, keys))
  {
    var more := Extend(w, keys);
    forall a, b | 0 <= a < b < |more|
      ensures more[a] != more[b]
    {
      assert more[a][|w|] == keys[a] && more[b][|w|] == keys[b];
    }
  }

  lemma UniqueConcat<T>(a: seq<T>, b: seq<T>)
    requires Unique(a) && Unique(b) && forall k :: 0 <= k < |b| ==> b[k] !in a
    ensures Unique(a + b)
  {
    forall j, k | 0 <= j < k < |a + b|
      ensures (a + b)[j] != (a + b)[k]
    {
      if j < |a| <= k {
        assert b[k - |a|] !in a;
      }
    }
  }

  lemma ExtendWalk(g: TaskGraph, w: Walk, c: string)
    requires IsWalk(g, w) && c in Fresh(g, Last(w))
    ensures IsWalk(g, w + [c])
  {
  }

  lemma KeepsWalks(g: TaskGraph, t: Trail)
    requires WellFormed(g) && Walks(g, t) && Parents(t) && t.queue != []
    ensures Walks(g, Advance(g, t))
  {
    var w := t.queue[0];
    var more := Extend(w, Fresh(g, Last(w)));
    AdvanceAll(g, t);
    FreshUnique(g, Last(w));
    ExtendUnique(w, Fresh(g, Last(w)));
    assert All(t)[|t.done|] == w;
    forall k | 0 <= k < |t.done|
      ensures t.done[k] != w
    {
      assert All(t)[k] == t.done[k];
    }
    forall k | 0 <= k < |more|
      ensures IsWalk(g, more[k]) && more[k] !in All(t)
    {
      ExtendWalk(g, w, Fresh(g, Last(w))[k]);
      assert more[k][..|more[k]| - 1] == w;
    }
    UniqueConcat(All(t), more);
  }

  lemma KeepsLevelled(g: TaskGraph, t: Trail)
    requires Levelled(t) && t.queue != []
    ensures Levelled(Advance(g, t))
  {
    AdvanceAll(g, t);
    var n := |All(t)|;
    assert All(t)[|t.done|] == t.queue[0] && All(t)[n - 1] == t.queue[|t.queue| - 1];
    forall a | 0 <= a < n
      ensures |All(t)[a]| <= |t.queue[0]| + 1
    {
      assert a < n - 1 ==> |All(t)[a]| <= |All(t)[n - 1]|;
    }
    var t' := Advance(g, t);
    if t'.queue != [] {
      var z := |All(t')| - 1;
      assert All(t')[z] == t'.queue[|t'.queue| - 1];
      if |t.queue| > 1 {
        assert t'.queue[0] == All(t)[|t.done| + 1];
      }
    }
  }

  lemma KeepsParents(g: TaskGraph, t: Trail)
    requires Parents(t) && t.queue != [] && Walks(g, t)
    ensures Parents(Advance(g, t))
  {
    AdvanceAll(g, t);
    var t' := Advance(g, t);
    var w := t.queue[0];
    assert t'.done[|t.done|] == w;
    forall x | x in All(t') && |x| > 1
      ensures x[..|x| - 1] in t'.done
    {
      if x in All(t) {
        assert x[..|x| - 1] in t.done;
      } else {
        var k :| 0 <= k < |Extend(w, Fresh(g, Last(w)))| && x == Extend(w, Fresh(g, Last(w)))[k];
        assert x[..|x| - 1] == w;
      }
    }
  }

  lemma KeepsComplete(g: TaskGraph, t: Trail)
    requires Complete(g, t) && t.queue != []
    ensures Complete(g, Advance(g, t))
  {
    AdvanceAll(g, t);
    var t' := Advance(g, t);
    var w := t.queue[0];
    var succ := Fresh(g, Last(w));
    forall a | 0 <= a < |t'.done|
      ensures Continued(g, t', a)
    {
      forall c | c in Fresh(g, Last(t'.done[a]))
        ensures exists b :: a < b < |All(t')| && All(t')[b] == t'.done[a] + [c]
      {
        if a < |t.done| {
          assert Continued(g, t, a);
          var b :| a < b < |All(t)| && All(t)[b] == t.done[a] + [c];
          assert All(t')[b] == t'.done[a] + [c];
        } else {
          var k :| 0 <= k < |succ| && succ[k] == c;
          assert All(t')[|All(t)| + k] == w + [c];
        }
      }
    }
  }

  lemma {:induction false} AfterGood(g: TaskGraph, n: nat)
    requires WellFormed(g)
    ensures Good(g, After(g, n))
  {
    if n == 0 {
      StartGood(g);
    } else {
      AfterGood(g, n - 1);
      var t := After(g, n - 1);
      if t.queue != [] {
        KeepsWalks(g, t);
        KeepsLevelled(g, t);
        KeepsParents(g, t);
        KeepsComplete(g, t);
      }
    }
  }

  // ---------------------------------------------------------------- draining

  lemma WalkInit(g: TaskGraph, w: Walk)
    requires IsWalk(g, w) && |w| > 1
    ensures var init := w[..|w| - 1];
            IsWalk(g, init) && w == init + [Last(w)] && Last(w) in Fresh(g, Last(init))
  {
  }

  /** Every walk is dispatched before the queue drains. */
  lemma {:induction false} DrainedHasAll(g: TaskGraph, t: Trail, w: Walk)
    requires Complete(g, t) && t.queue == [] && IsWalk(g, w)
    ensures w in t.done
    decreases |w|
  {
    assert All(t) == t.done;
    if |w| == 1 {
      assert w == [w[0]];
    } else {
      WalkInit(g, w);
      var init := w[..|w| - 1];
      DrainedHasAll(g, t, init);
      var a :| 0 <= a < |t.done| && t.done[a] == init;
      assert Continued(g, t, a);
    }
  }

  /** Number of walks from a task onwards with at most `depth` further steps. */
  function Weight(g: TaskGraph, key: string, depth: nat): nat
    decreases depth, 1
  {
    1 + if depth == 0 then 0 else TotalWeight(g, Fresh(g, key), depth - 1)
  }

  function TotalWeight(g: TaskGraph, keys: seq<string>, depth: nat): nat
    decreases depth, 2, |keys|
  {
    if keys == [] then 0 else TotalWeight(g, keys[..|keys| - 1], depth) + Weight(g, keys[|keys| - 1], depth)
  }

  /** The walk counts of all queue entries together, for walks of at most `bound` tasks. */
  function Measure(g: TaskGraph, queue: seq<Walk>, bound: nat): nat {
    if queue == [] then 0
    else
      var w := queue[|queue| - 1];
      Measure(g, queue[..|queue| - 1], bound) + (if |w| <= bound then Weight(g, Last(w), bound - |w|) else 0)
  }

  lemma {:induction false} MeasureConcat(g: TaskGraph, a: seq<Walk>, b: seq<Walk>, bound: nat)
    ensures Measure(g, a + b, bound) == Measure(g, a, bound) + Measure(g, b, bound)
    decreases |b|
  {
    if b == [] {
      assert a + b == a;
    } else {
      assert (a + b)[..|a + b| - 1] == a + b[..|b| - 1];
      MeasureConcat(g, a, b[..|b| - 1], bound);
    }
  }

  lemma {:induction false} MeasureExtend(g: TaskGraph, w: Walk, keys: seq<string>, bound: nat)
    requires |w| < bound
    ensures Measure(g, Extend(w, keys), bound) == TotalWeight(g, keys, bound - |w| - 1)
    decreases |keys|
  {
    if keys != [] {
      var n := |keys| - 1;
      assert Extend(w, keys)[..n] == Extend(w, keys[..n]);
      MeasureExtend(g, w, keys[..n], bound);
      assert Extend(w, keys)[n] == w + [keys[n]];
    }
  }

  /** One dispatch lowers the total walk count by exactly one. */
  lemma MeasureStep(g: TaskGraph, t: Trail, bound: nat)
    requires t.queue != [] && |t.queue[0]| <= bound
    requires |t.queue[0]| == bound ==> Fresh(g, Last(t.queue[0])) == []
    ensures Measure(g, t.queue, bound) == 1 + Measure(g, Advance(g, t).queue, bound)
  {
    var w := t.queue[0];
    var succ := Fresh(g, Last(w));
    assert t.queue == [w] + t.queue[1..];
    MeasureConcat(g, [w], t.queue[1..], bound);
    MeasureConcat(g, t.queue[1..], Extend(w, succ), bound);
    assert [w][..0] == [];
    if |w| < bound {
      MeasureExtend(g, w, succ, bound);
    } else {
      assert Extend(w, succ) == [];
    }
  }

  lemma {:induction false} UniqueBounded(w: Walk, keys: set<string>)
    requires Unique(w) && forall k :: 0 <= k < |w| ==> w[k] in keys
    ensures |w| <= |keys|
    decreases |w|
  {
    if w != [] {
      var n := |w| - 1;
      assert forall k :: 0 <= k < n ==> w[..n][k] != w[n];
      UniqueBounded(w[..n], keys - {w[n]});
    }
  }

  lemma {:induction false} WalkKeys(g: TaskGraph, w: Walk)
    requires WellFormed(g) && IsWalk(g, w)
    ensures forall k :: 0 <= k < |w| ==> w[k] in g.children
  {
    forall k | 0 <= k < |w|
      ensures w[k] in g.children
    {
      if k > 0 {
        FreshUnique(g, w[k - 1]);
      }
    }
  }

  /** On an acyclic graph no walk is longer than the number of tasks. */
  lemma WalkBounded(g: TaskGraph, w: Walk)
    requires WellFormed(g) && Acyclic(g) && IsWalk(g, w)
    ensures |w| <= |g.children.Keys|
    ensures |w| == |g.children.Keys| ==> Fresh(g, Last(w)) == []
  {
    WalkKeys(g, w);
    UniqueBounded(w, g.children.Keys);
    if |w| == |g.children.Keys| && Fresh(g, Last(w)) != [] {
      var longer := w + [Fresh(g, Last(w))[0]];
      ExtendWalk(g, w, Fresh(g, Last(w))[0]);
      WalkKeys(g, longer);
      UniqueBounded(longer, g.children.Keys);
    }
  }

  /** Number of dispatches an acyclic graph takes. */
  function Dispatches(g: TaskGraph): nat { Measure(g, Start(g).queue, |g.children.Keys|) }

  lemma {:induction false} MeasureAfter(g: TaskGraph, n: nat)
    requires WellFormed(g) && Acyclic(g) && n <= Dispatches(g)
    ensures |After(g, n).done| == n
    ensures Measure(g, After(g, n).queue, |g.children.Keys|) == Dispatches(g) - n
  {
    if n > 0 {
      MeasureAfter(g, n - 1);
      AfterGood(g, n - 1);
      var t := After(g, n - 1);
      if t.queue != [] {
        assert t.queue[0] in All(t);
        WalkBounded(g, t.queue[0]);
        MeasureStep(g, t, |g.children.Keys|);
      }
    }
  }

  lemma DrainedAtMeasureZero(g: TaskGraph, t: Trail, bound: nat)
    requires t.queue != [] && |t.queue[|t.queue| - 1]| <= bound
    ensures Measure(g, t.queue, bound) > 0
  {
  }

  /** The queue of a finite acyclic graph drains after exactly Dispatches(g) dispatches. They are
      the walks from the start nodes, each once, by non-decreasing length. */
  lemma Drains(g: TaskGraph)
    requires WellFormed(g) && Acyclic(g)
    ensures var t := After(g, Dispatches(g));
            && t.queue == [] && |t.done| == Dispatches(g)
            && Unique(t.done) && (forall w :: w in t.done <==> IsWalk(g, w))
            && forall a, b :: 0 <= a < b < |t.done| ==> |t.done[a]| <= |t.done[b]|
  {
    var n := Dispatches(g);
    var t := After(g, n);
    AfterGood(g, n);
    MeasureAfter(g, n);
    if t.queue != [] {
      var last := t.queue[|t.queue| - 1];
      assert last in All(t);
      WalkBounded(g, last);
      DrainedAtMeasureZero(g, t, |g.children.Keys|);
    }
    assert All(t) == t.done;
    forall w | IsWalk(g, w)
      ensures w in t.done
    {
      DrainedHasAll(g, t, w);
    }
  }

  // ---------------------------------------------------------------- what drains, and in what order

  function LongestFrom(ws: seq<Walk>): (n: nat)
    ensures forall w :: w in ws ==> |w| <= n
  {
    if ws == [] then 0
    else
      var n := LongestFrom(ws[..|ws| - 1]);
      assert ws == ws[..|ws| - 1] + [ws[|ws| - 1]];
      if n < |ws[|ws| - 1]| then |ws[|ws| - 1]| else n
  }

  /** Going round the loop between two visits of a task once more gives a longer walk. */
  lemma Pump(g: TaskGraph, w: Walk, a: nat, b: nat)
    requires IsWalk(g, w) && a < b < |w| && w[a] == w[b]
    ensures var longer := w[..b] + w[a..];
            IsWalk(g, longer) && |longer| > |w| && longer[a] == longer[b]
  {
    var longer := w[..b] + w[a..];
    forall k | 0 < k < |longer|
      ensures longer[k] in Fresh(g, longer[k - 1])
    {
      if k > b {
        assert longer[k] == w[a + k - b] && longer[k - 1] == w[a + k - b - 1];
      }
    }
  }

  lemma {:induction false} PumpBeyond(g: TaskGraph, w: Walk, a: nat, b: nat, n: nat) returns (longer: Walk)
    requires IsWalk(g, w) && a < b < |w| && w[a] == w[b]
    ensures IsWalk(g, longer) && |longer| > n
    decreases if |w| > n then 0 else n + 1 - |w|
  {
    if |w| > n {
      longer := w;
    } else {
      Pump(g, w, a, b);
      longer := PumpBeyond(g, w[..b] + w[a..], a, b, n);
    }
  }

  /** The queue ever drains if and only if no walk meets a task twice. */
  lemma DrainsExactly(g: TaskGraph)
    requires WellFormed(g)
    ensures (exists n :: After(g, n).queue == []) <==> Acyclic(g)
  {
    if Acyclic(g) {
      Drains(g);
    } else {
      var w :| IsWalk(g, w) && !Unique(w);
      var a, b :| 0 <= a < b < |w| && w[a] == w[b];
      forall n: nat
        ensures After(g, n).queue != []
      {
        AfterGood(g, n);
        var t := After(g, n);
        if t.queue == [] {
          var longer := PumpBeyond(g, w, a, b, LongestFrom(t.done));
          DrainedHasAll(g, t, longer);
        }
      }
    }
  }

  function Count(keys: seq<string>, key: string): nat {
    if keys == [] then 0
    else Count(keys[..|keys| - 1], key) + if keys[|keys| - 1] == key then 1 else 0
  }

  ghost function Ending(ws: seq<Walk>, key: string): set<Walk> {
    set w | w in ws && Last(w) == key
  }

  lemma EndingStep(ws: seq<Walk>, key: string)
    requires Unique(ws) && ws != []
    ensures var n := |ws| - 1;
            && Ending(ws, key) == (if Last(ws[n]) == key then Ending(ws[..n], key) + {ws[n]} else Ending(ws[..n], key))
            && ws[n] !in Ending(ws[..n], key)
  {
    var n := |ws| - 1;
    assert ws == ws[..n] + [ws[n]];
    forall k | 0 <= k < n
      ensures ws[..n][k] != ws[n]
    {
    }
  }

  lemma {:induction false} CountWalks(ws: seq<Walk>, key: string)
    requires Unique(ws)
    ensures Count(Keys(ws), key) == |Ending(ws, key)|
    decreases |ws|
  {
    if ws == [] {
      assert Ending(ws, key) == {};
    } else {
      CountWalks(ws[..|ws| - 1], key);
      assert Keys(ws)[..|ws| - 1] == Keys(ws[..|ws| - 1]);
      EndingStep(ws, key);
    }
  }

  /** A task is dispatched once for every distinct walk from a start node to it. */
  lemma DispatchCount(g: TaskGraph, key: string, paths: set<Walk>)
    requires WellFormed(g) && Acyclic(g)
    requires forall w :: w in paths <==> IsWalk(g, w) && Last(w) == key
    ensures Count(Keys(After(g, Dispatches(g)).done), key) == |paths|
  {
    Drains(g);
    var done := After(g, Dispatches(g)).done;
    CountWalks(done, key);
    assert paths == Ending(done, key);
  }

  /** Earlier dispatches are no longer than later ones, nor than what is queued, and queued walks
      differ in length by at most one. */
  predicate LevelByLevel(t: Trail) {
    && (forall a, b :: 0 <= a < b < |t.done| ==> |t.done[a]| <= |t.done[b]|)
    && (forall a, b :: 0 <= a < |t.done| && 0 <= b < |t.queue| ==> |t.done[a]| <= |t.queue[b]|)
    && (forall a, b :: 0 <= a <= b < |t.queue| ==> |t.queue[a]| <= |t.queue[b]| <= |t.queue[a]| + 1)
  }

  lemma LevelledParts(t: Trail)
    requires Levelled(t)
    ensures LevelByLevel(t)
  {
    var m := |t.done|;
    forall a, b | 0 <= a < b < m
      ensures |t.done[a]| <= |t.done[b]|
    {
      assert All(t)[a] == t.done[a] && All(t)[b] == t.done[b];
    }
    forall a, b | 0 <= a < m && 0 <= b < |t.queue|
      ensures |t.done[a]| <= |t.queue[b]|
    {
      assert All(t)[a] == t.done[a] && All(t)[m + b] == t.queue[b];
    }
    forall a, b | 0 <= a <= b < |t.queue|
      ensures |t.queue[a]| <= |t.queue[b]| <= |t.queue[a]| + 1
    {
      var z := |t.queue| - 1;
      assert All(t)[m] == t.queue[0] && All(t)[m + a] == t.queue[a];
      assert All(t)[m + b] == t.queue[b] && All(t)[m + z] == t.queue[z];
    }
  }

  /** Dispatches come in non-decreasing path length and the queue never spans more than two
      consecutive lengths, on any graph and at any moment. */
  lemma LevelOrder(g: TaskGraph, n: nat)
    requires WellFormed(g)
    ensures LevelByLevel(After(g, n))
  {
    AfterGood(g, n);
    LevelledParts(After(g, n));
  }

  /** When everything is dispatched, every dispatch of a task is followed by one of each of its
      successors: the last dispatch of a task comes after all those of its predecessors. */
  lemma LastAfterPredecessors(g: TaskGraph, task: string, succ: string, a: nat)
    requires WellFormed(g) && Acyclic(g) && succ in Fresh(g, task)
    requires a < |After(g, Dispatches(g)).done| && Last(After(g, Dispatches(g)).done[a]) == task
    ensures exists b :: a < b < |After(g, Dispatches(g)).done| && Last(After(g, Dispatches(g)).done[b]) == succ
  {
    var t := After(g, Dispatches(g));
    Drains(g);
    AfterGood(g, Dispatches(g));
    assert Continued(g, t, a);
    assert All(t) == t.done;
    var b :| a < b < |All(t)| && All(t)[b] == t.done[a] + [succ];
    assert Last(t.done[b]) == succ;
  }

  // ---------------------------------------------------------------- the exact order

  /** The extensions of these walks, walk by walk. */
  function Grown(g: TaskGraph, ws: seq<Walk>): seq<Walk> {
    if ws == [] then []
    else
      var k := |ws| - 1;
      Grown(g, ws[..k]) + Extend(ws[k], Fresh(g, Last(ws[k])))
  }

  /** Dispatched and queued walks are the start nodes followed by the extensions of the dispatched
      ones, in the order of their dispatch. */
  predicate IsGrown(g: TaskGraph, t: Trail) {
    All(t) == Start(g).queue + Grown(g, t.done)
  }

  lemma GrownMore(g: TaskGraph, ws: seq<Walk>, w: Walk)
    ensures Grown(g, ws + [w]) == Grown(g, ws) + Extend(w, Fresh(g, Last(w)))
  {
    assert (ws + [w])[..|ws|] == ws;
  }

  lemma GrownAdvance(g: TaskGraph, t: Trail)
    requires t.queue != [] && IsGrown(g, t)
    ensures IsGrown(g, Advance(g, t))
  {
    var more := Extend(t.queue[0], Fresh(g, Last(t.queue[0])));
    AdvanceAll(g, t);
    GrownMore(g, t.done, t.queue[0]);
    Regroup(Start(g).queue, Grown(g, t.done), more);
  }

  lemma Regroup<T>(a: seq<T>, b: seq<T>, c: seq<T>)
    ensures (a + b) + c == a + (b + c)
  {
  }

  lemma {:induction false} AllGrown(g: TaskGraph, n: nat)
    ensures IsGrown(g, After(g, n))
  {
    if n == 0 {
      assert All(Start(g)) == Start(g).queue;
    } else {
      AllGrown(g, n - 1);
      if After(g, n - 1).queue != [] {
        GrownAdvance(g, After(g, n - 1));
      }
    }
  }

  lemma {:induction false} GrownGrows(g: TaskGraph, ws: seq<Walk>, a: nat, b: nat)
    requires a <= b <= |ws|
    ensures Grown(g, ws[..a]) <= Grown(g, ws[..b])
    decreases b
  {
    if a < b {
      GrownGrows(g, ws, a, b - 1);
      assert ws[..b][..b - 1] == ws[..b - 1];
    }
  }

  lemma Second<T>(a: seq<T>, b: seq<T>, k: nat)
    requires k < |b|
    ensures |a| + k < |a + b| && (a + b)[|a| + k] == b[k]
  {
  }

  lemma ExtendedAt(some: seq<Walk>, more: seq<Walk>, all: seq<Walk>, w: Walk, keys: seq<string>, x: nat)
    requires more == some + Extend(w, keys) && more <= all && x < |keys|
    ensures |some| + x < |more| <= |all| && all[|some| + x] == w + [keys[x]]
  {
    Second(some, Extend(w, keys), x);
    assert all[|some| + x] == more[|some| + x];
  }

  lemma GrownPart(g: TaskGraph, ws: seq<Walk>, a: nat)
    requires a <= |ws|
    ensures Grown(g, ws[..a]) <= Grown(g, ws)
  {
    GrownGrows(g, ws, a, |ws|);
    assert ws[..|ws|] == ws;
  }

  lemma GrownNext(g: TaskGraph, ws: seq<Walk>, a: nat)
    requires a < |ws|
    ensures Grown(g, ws[..a + 1]) == Grown(g, ws[..a]) + Extend(ws[a], Fresh(g, Last(ws[a])))
  {
    assert ws[..a + 1] == ws[..a] + [ws[a]];
    GrownMore(g, ws[..a], ws[a]);
  }

  /** Where the extension of walk `a` by its successor number `x` stands. */
  lemma GrownAt(g: TaskGraph, ws: seq<Walk>, a: nat, x: nat)
    requires a < |ws| && x < |Fresh(g, Last(ws[a]))|
    ensures var i := |Grown(g, ws[..a])| + x;
            i < |Grown(g, ws[..a + 1])| <= |Grown(g, ws)| && Grown(g, ws)[i] == ws[a] + [Fresh(g, Last(ws[a]))[x]]
  {
    GrownNext(g, ws, a);
    GrownPart(g, ws, a + 1);
    ExtendedAt(Grown(g, ws[..a]), Grown(g, ws[..a + 1]), Grown(g, ws), ws[a], Fresh(g, Last(ws[a])), x);
  }

  /** Position of the extension in the trail. */
  function Slot(g: TaskGraph, t: Trail, a: nat, x: nat): nat
    requires a < |t.done|
  {
    |g.starts| + |Grown(g, t.done[..a])| + x
  }

  lemma SlotIn(g: TaskGraph, t: Trail, a: nat, x: nat)
    requires IsGrown(g, t) && a < |t.done| && x < |Fresh(g, Last(t.done[a]))|
    ensures Slot(g, t, a, x) < |All(t)|
    ensures All(t)[Slot(g, t, a, x)] == t.done[a] + [Fresh(g, Last(t.done[a]))[x]]
  {
    GrownAt(g, t.done, a, x);
    Second(Start(g).queue, Grown(g, t.done), |Grown(g, t.done[..a])| + x);
  }

  lemma SlotHolds(g: TaskGraph, n: nat, a: nat, x: nat)
    requires a < |After(g, n).done| && x < |Fresh(g, Last(After(g, n).done[a]))|
    ensures var t := After(g, n);
            && Slot(g, t, a, x) < |All(t)|
            && All(t)[Slot(g, t, a, x)] == t.done[a] + [Fresh(g, Last(t.done[a]))[x]]
  {
    AllGrown(g, n);
    SlotIn(g, After(g, n), a, x);
  }

  lemma {:induction false} WithoutOrder(keys: seq<string>, lookup: set<string>, p: nat, q: nat) returns (x: nat, y: nat)
    requires p < q < |keys| && keys[p] !in lookup && keys[q] !in lookup
    ensures x < y < |Without(keys, lookup)|
    ensures Without(keys, lookup)[x] == keys[p] && Without(keys, lookup)[y] == keys[q]
    decreases |keys|
  {
    var k := |keys| - 1;
    if q < k {
      x, y := WithoutOrder(keys[..k], lookup, p, q);
    } else {
      x := WithoutAt(keys[..k], lookup, p);
      y := |Without(keys[..k], lookup)|;
    }
  }

  lemma {:induction false} WithoutAt(keys: seq<string>, lookup: set<string>, p: nat) returns (x: nat)
    requires p < |keys| && keys[p] !in lookup
    ensures x < |Without(keys, lookup)| && Without(keys, lookup)[x] == keys[p]
    decreases |keys|
  {
    var k := |keys| - 1;
    if p < k {
      x := WithoutAt(keys[..k], lookup, p);
    } else {
      x := |Without(keys[..k], lookup)|;
    }
  }

  /** The walk stands in the trail before the other one. */
  predicate StandsBefore(t: Trail, u: Walk, v: Walk) {
    exists i, j :: 0 <= i < j < |All(t)| && All(t)[i] == u && All(t)[j] == v
  }

  /** Siblings come in the order of the graph's successor list: after any number of dispatches, the
      extensions of a dispatched walk by two successors that are not start nodes stand in it. */
  lemma SiblingOrder(g: TaskGraph, n: nat, w: Walk, p: nat, q: nat)
    requires WellFormed(g) && w in After(g, n).done && Last(w) in g.children
    requires p < q < |g.children[Last(w)]|
    requires g.children[Last(w)][p] !in g.starts && g.children[Last(w)][q] !in g.starts
    ensures StandsBefore(After(g, n), w + [g.children[Last(w)][p]], w + [g.children[Last(w)][q]])
  {
    var t := After(g, n);
    var a :| 0 <= a < |t.done| && t.done[a] == w;
    var x, y := WithoutOrder(g.children[Last(w)], (set s | s in g.starts), p, q);
    SlotHolds(g, n, a, x);
    SlotHolds(g, n, a, y);
    assert Slot(g, t, a, x) < Slot(g, t, a, y);
  }

  /** First come, first served: a walk whose last step was queued by an earlier dispatch stands
      before one that was queued by a later dispatch. */
  lemma ParentOrder(g: TaskGraph, n: nat, a: nat, b: nat, i: nat, j: nat)
    requires WellFormed(g) && a < b < |After(g, n).done|
    requires i < |All(After(g, n))| && j < |All(After(g, n))|
    requires var t := After(g, n);
             var u, v := All(t)[i], All(t)[j];
             |u| > 1 && u[..|u| - 1] == t.done[a] && |v| > 1 && v[..|v| - 1] == t.done[b]
    ensures i < j
  {
    var t := After(g, n);
    var x := SlotOf(g, n, a, i);
    var y := SlotOf(g, n, b, j);
    GrownAt(g, t.done, a, x);
    GrownGrows(g, t.done, a + 1, b);
  }

  lemma SlotOf(g: TaskGraph, n: nat, a: nat, i: nat) returns (x: nat)
    requires WellFormed(g) && a < |After(g, n).done| && i < |All(After(g, n))|
    requires |All(After(g, n))[i]| > 1
    requires All(After(g, n))[i][..|All(After(g, n))[i]| - 1] == After(g, n).done[a]
    ensures x < |Fresh(g, Last(After(g, n).done[a]))| && i == Slot(g, After(g, n), a, x)
  {
    var t := After(g, n);
    AfterGood(g, n);
    var u := All(t)[i];
    assert u in All(t);
    WalkInit(g, u);
    x :| 0 <= x < |Fresh(g, Last(t.done[a]))| && Fresh(g, Last(t.done[a]))[x] == Last(u);
    SlotHolds(g, n, a, x);
    assert All(t)[Slot(g, t, a, x)] == u;
  }

  /** The start nodes come first, in the graph's order. */
  lemma StartOrder(g: TaskGraph, n: nat, k: nat)
    requires k < |g.starts|
    ensures |All(After(g, n))| >= |g.starts| && All(After(g, n))[k] == [g.starts[k]]
  {
    AllGrown(g, n);
  }

  /** `next` is a successor of `key` and not a start node. */
  predicate Follows(g: TaskGraph, key: string, next: string) {
    key in g.children && next in g.children[key] && next !in g.starts
  }

  lemma FollowsFresh(g: TaskGraph, key: string, next: string)
    requires WellFormed(g)
    ensures next in Fresh(g, key) <==> Follows(g, key, next)
  {
    FreshUnique(g, key);
    if key !in g.children {
      assert Children(g, key) == [];
    }
  }

  /** A walk, in terms of the graph alone: it follows successors from a start node and never
      enters a start node again. */
  lemma WalkExactly(g: TaskGraph, w: Walk)
    requires WellFormed(g)
    ensures IsWalk(g, w) <==>
              && w != [] && w[0] in g.starts
              && forall k :: 0 < k < |w| ==> Follows(g, w[k - 1], w[k])
  {
    forall k | 0 < k < |w|
      ensures w[k] in Fresh(g, w[k - 1]) <==> Follows(g, w[k - 1], w[k])
    {
      FollowsFresh(g, w[k - 1], w[k]);
    }
  }

  // ---------------------------------------------------------------- the scheduler's own queue

  /** The scheduler's queue after `n` calls of PrepareNextTask, as its contract moves it. */
  function QueueAfter(g: TaskGraph, n: nat): seq<string> {
    if n == 0 then g.starts
    else
      var q := QueueAfter(g, n - 1);
      if q == [] then [] else Next(g, q)
  }

  function DispatchedAfter(g: TaskGraph, n: nat): seq<string> {
    if n == 0 then []
    else
      var q := QueueAfter(g, n - 1);
      DispatchedAfter(g, n - 1) + if q == [] then [] else [q[0]]
  }

  /** The scheduler's queue and dispatches are the trail's, entry by entry. */
  lemma {:induction false} SchedulerFollows(g: TaskGraph, n: nat)
    ensures QueueAfter(g, n) == Keys(After(g, n).queue)
    ensures DispatchedAfter(g, n) == Keys(After(g, n).done)
  {
    if n == 0 {
      StartFollows(g);
    } else {
      SchedulerFollows(g, n - 1);
      var t := After(g, n - 1);
      if t.queue != [] {
        QueueFollows(g, t);
      }
    }
  }

  /** A path of the task graph itself, from a start node. */
  ghost predicate IsPath(g: TaskGraph, w: Walk) {
    && w != [] && w[0] in g.starts
    && forall k :: 0 < k < |w| ==> w[k] in Children(g, w[k - 1])
  }

  /** When no edge leads into a start node, the walks that are dispatched are the graph's paths. */
  lemma WalksArePaths(g: TaskGraph, w: Walk)
    requires WellFormed(g)
    requires forall k, s :: s in g.starts ==> s !in Children(g, k)
    ensures IsWalk(g, w) <==> IsPath(g, w)
  {
    forall k | 0 < k < |w|
      ensures w[k] in Fresh(g, w[k - 1]) <==> w[k] in Children(g, w[k - 1])
    {
      FreshIsChildren(g, w[k - 1]);
    }
  }
}
