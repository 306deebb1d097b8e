/** The last readings of every series (internal/quality/history.go): a window of
    `depth` values per sensor and metric, with first-in first-out eviction of
    whole sensors above a cap. */
module History {
  import opened Contents

  /** What a history holds: its series, and its sensors in first-seen order. */
  datatype Tracked = Tracked(state: map<int, map<string, seq<real>>>, order: seq<int>) {

    /** order lists each tracked sensor once, and there are not too many. */
    ghost predicate Valid(cap: nat) {
      multiset(order) == multiset(state.Keys) && |order| <= cap
    }

    /** A series' remembered values, oldest first; none for an unknown series. */
    function Series(id: int, metric: string): seq<real> {
      if id in state && metric in state[id] then state[id][metric] else []
    }

    /** Adds a sensor, dropping from the front while there are too many. */
    function Admit(cap: nat, id: int): Tracked {
      if id in state then this
      else Tracked(state[id := map[]], order + [id]).Evict(cap)
    }

    function Evict(cap: nat): Tracked
      decreases |order|
    {
      if |order| <= cap then this
      else Tracked(state - {order[0]}, order[1..]).Evict(cap)
    }

    function Observe(depth: nat, cap: nat, id: int, metric: string, value: real): Tracked {
      var t := Admit(cap, id);
      if id !in t.state then t
      else t.(state := t.state[id := t.state[id][metric := Trim(depth, t.Series(id, metric) + [value])]])
    }
  }

  /** The newest n elements. */
  function Trim<T>(n: nat, s: seq<T>): seq<T> {
    if |s| > n then s[|s| - n..] else s
  }

  datatype Window = Window(value: real, ok: bool)

  function Least(s: seq<real>): real
    requires s != []
  {
    if |s| == 1 then s[0]
    else var m := Least(s[..|s| - 1]); if s[|s| - 1] < m then s[|s| - 1] else m
  }

  function Greatest(s: seq<real>): real
    requires s != []
  {
    if |s| == 1 then s[0]
    else var m := Greatest(s[..|s| - 1]); if s[|s| - 1] > m then s[|s| - 1] else m
  }

  const EPSILON := 0.000000001

  /** The newest value, and whether the window is full with a spread within the
      tolerance (and an epsilon for float error). */
  function WindowOf(depth: nat, s: seq<real>, tolerance: real): Window {
    if |s| < depth || s == [] then Window(0.0, false)
    else Window(s[|s| - 1], Greatest(s) - Least(s) <= tolerance + EPSILON)
  }

  /** A window is accepted exactly when it is full and no two of its values are
      farther apart than the tolerance and the epsilon allow. */
  lemma WindowSpread(depth: nat, s: seq<real>, tolerance: real)
    requires depth >= 1
    ensures WindowOf(depth, s, tolerance).ok <==>
              |s| >= depth && forall i, j | 0 <= i < |s| && 0 <= j < |s| :: s[i] - s[j] <= tolerance + EPSILON
  {
    if s != [] {
      Extremes(s);
      var hi :| 0 <= hi < |s| && s[hi] == Greatest(s);
      var lo :| 0 <= lo < |s| && s[lo] == Least(s);
    }
  }

  /** Of a full window the code accepts more than exact equality, and exactly so
      much: a spread that is positive but within the epsilon. */
  lemma AcceptedUnequal(depth: nat, s: seq<real>)
    requires depth >= 1 && |s| >= depth
    ensures WindowOf(depth, s, 0.0).ok && (exists i, j :: 0 <= i < |s| && 0 <= j < |s| && s[i] != s[j])
            <==> 0.0 < Greatest(s) - Least(s) <= EPSILON
  {
    Extremes(s);
    var hi :| 0 <= hi < |s| && s[hi] == Greatest(s);
    var lo :| 0 <= lo < |s| && s[lo] == Least(s);
  }

  lemma {:induction false} Extremes(s: seq<real>)
    requires s != []
    ensures forall i | 0 <= i < |s| :: Least(s) <= s[i] <= Greatest(s)
    ensures exists i :: 0 <= i < |s| && s[i] == Least(s)
    ensures exists i :: 0 <= i < |s| && s[i] == Greatest(s)
  {
    if |s| > 1 {
      var front := s[..|s| - 1];
      Extremes(front);
      var lo :| 0 <= lo < |front| && front[lo] == Least(front);
      var hi :| 0 <= hi < |front| && front[hi] == Greatest(front);
      var n := |s| - 1;
      var atLo, atHi := if s[n] < front[lo] then n else lo, if s[n] > front[hi] then n else hi;
      assert s[atLo] == Least(s) && s[atHi] == Greatest(s);
      forall i | 0 <= i < |s| ensures Least(s) <= s[i] <= Greatest(s) {
        assert i < n ==> front[i] == s[i];
      }
    } else {
      assert s[0] == Least(s) == Greatest(s);
    }
  }

  function ExemptStuckValues(metric: string): set<real> {
    if metric == "humidity" then {0.0, 100.0}
    else if metric == "P1" || metric == "P2" then {0.0}
    else {}
  }

  class Histories {
    const depth: nat
    const cap: nat
    var state: map<int, map<string, seq<real>>>
    var order: seq<int>

    constructor (depth: nat, cap: nat)
      ensures this.depth == depth && this.cap == cap && Contents() == Tracked(map[], [])
    {
      this.depth, this.cap := depth, cap;
      state, order := map[], [];
    }

    function Contents(): Tracked
      reads this
    {
      Tracked(state, order)
    }

    method Observe(sensorID: int, metric: string, value: real)
      modifies this
      ensures Contents() == old(Contents()).Observe(depth, cap, sensorID, metric, value)
    {
      if sensorID !in state {
        state := state[sensorID := map[]];
        order := order + [sensorID];
        while |order| > cap
          invariant Contents().Evict(cap) == old(Contents()).Admit(cap, sensorID)
          decreases |order|
        {
          var evict := order[0];
          order := order[1..];
          state := state - {evict};
        }
      }
      if sensorID in state {
        var vals := if metric in state[sensorID] then state[sensorID][metric] else [];
        vals := vals + [value];
        if |vals| > depth {
          vals := vals[|vals| - depth..];
        }
        state := state[sensorID := state[sensorID][metric := vals]];
      }
    }

    method WindowFor(sensorID: int, metric: string, tolerance: real) returns (w: Window)
      requires depth >= 1
      ensures w == WindowOf(depth, Contents().Series(sensorID, metric), tolerance)
    {
      if sensorID !in state || metric !in state[sensorID] || |state[sensorID][metric]| < depth {
        return Window(0.0, false);
      }
      var vals := state[sensorID][metric];
      var lo, hi := vals[0], vals[0];
      for i := 0 to |vals|
        invariant i == 0 ==> lo == hi == vals[0]
        invariant i > 0 ==> lo == Least(vals[..i]) && hi == Greatest(vals[..i])
      {
        assert vals[..i + 1][..i] == vals[..i];
        lo := if vals[i] < lo then vals[i] else lo;
        hi := if vals[i] > hi then vals[i] else hi;
      }
      assert vals[..|vals|] == vals;
      w := Window(vals[|vals| - 1], hi - lo <= tolerance + EPSILON);
    }
  }

  // ---- what a run of observations leaves ----

  datatype Observation = Observation(id: int, metric: string, value: real)

  function ObserveAll(t: Tracked, depth: nat, cap: nat, obs: seq<Observation>): Tracked {
    if obs == [] then t
    else
      var o := obs[|obs| - 1];
      ObserveAll(t, depth, cap, obs[..|obs| - 1]).Observe(depth, cap, o.id, o.metric, o.value)
  }

  function ValueOf(id: int, metric: string): Observation -> Option<real> {
    (o: Observation) => if o.id == id && o.metric == metric then Some(o.value) else None
  }

  function Ids(obs: seq<Observation>): set<int> { set o | o in obs :: o.id }

  lemma {:induction false} EvictKeeps(t: Tracked, cap: nat)
    requires multiset(t.order) == multiset(t.state.Keys)
    ensures t.Evict(cap).Valid(cap)
    decreases |t.order|
  {
    if |t.order| > cap {
      var first, next := t.order[0], Tracked(t.state - {t.order[0]}, t.order[1..]);
      assert t.order == [first] + next.order;
      assert first in multiset(t.state.Keys);
      assert next.state.Keys == t.state.Keys - {first};
      assert multiset(t.state.Keys - {first}) == multiset(t.state.Keys) - multiset{first};
      EvictKeeps(next, cap);
    }
  }

  /** However many sensors come and go, the cap holds and the first-seen order
      lists each tracked sensor once. */
  lemma ObserveKeeps(t: Tracked, depth: nat, cap: nat, o: Observation)
    requires t.Valid(cap)
    ensures t.Observe(depth, cap, o.id, o.metric, o.value).Valid(cap)
  {
    if o.id !in t.state {
      var grown := Tracked(t.state[o.id := map[]], t.order + [o.id]);
      assert grown.state.Keys == t.state.Keys + {o.id};
      EvictKeeps(grown, cap);
    }
    var admitted, after := t.Admit(cap, o.id), t.Observe(depth, cap, o.id, o.metric, o.value);
    assert after.state.Keys == admitted.state.Keys;
  }

  lemma OrderSize(t: Tracked, cap: nat)
    requires t.Valid(cap)
    ensures |t.order| == |t.state.Keys|
  {
    assert |multiset(t.order)| == |multiset(t.state.Keys)|;
  }

  /** Below the cap nothing is evicted: a series ends as the newest `depth` of
      what it remembered and what was observed of it, whatever was observed of
      others in between. */
  lemma {:induction false} SeriesBelowCap(t: Tracked, depth: nat, cap: nat, obs: seq<Observation>, id: int, metric: string)
    requires t.Valid(cap) && |t.state.Keys + Ids(obs)| <= cap
    requires |t.Series(id, metric)| <= depth
    ensures var after := ObserveAll(t, depth, cap, obs);
            && after.Valid(cap) && after.state.Keys == t.state.Keys + Ids(obs)
            && after.Series(id, metric) == Trim(depth, t.Series(id, metric) + Collect(ValueOf(id, metric), obs))
    decreases |obs|
  {
    if obs == [] {
      assert t.state.Keys + Ids(obs) == t.state.Keys;
      assert t.Series(id, metric) + [] == t.Series(id, metric);
    } else {
      hide Tracked.Observe, Tracked.Valid, Tracked.Series, Trim, Ids, Collect;
      var front, o := obs[..|obs| - 1], obs[|obs| - 1];
      assert obs == front + [o];
      IdsStep(front, o);
      SubsetSize(t.state.Keys + Ids(front), t.state.Keys + Ids(obs));
      SeriesBelowCap(t, depth, cap, front, id, metric);
      assert t.state.Keys + Ids(front) + {o.id} == t.state.Keys + Ids(obs);
      NoEviction(ObserveAll(t, depth, cap, front), depth, cap, o, t.state.Keys + Ids(obs), id, metric);
      SeriesStep(t.Series(id, metric), depth, front, o, id, metric);
    }
  }

  lemma SeriesStep(past: seq<real>, depth: nat, front: seq<Observation>, o: Observation, id: int, metric: string)
    ensures var before := Trim(depth, past + Collect(ValueOf(id, metric), front));
            Trim(depth, past + Collect(ValueOf(id, metric), front + [o]))
            == if id == o.id && metric == o.metric then Trim(depth, before + [o.value]) else before
  {
    hide Trim, Collect;
    var got := Collect(ValueOf(id, metric), front);
    CollectStep(ValueOf(id, metric), front, o);
    TrimStep(depth, past, got, o.value);
    assert got + [] == got;
  }

  lemma IdsStep(obs: seq<Observation>, o: Observation)
    ensures Ids(obs + [o]) == Ids(obs) + {o.id}
  {
  }

  lemma TrimStep<T>(n: nat, past: seq<T>, got: seq<T>, v: T)
    ensures Trim(n, Trim(n, past + got) + [v]) == Trim(n, past + (got + [v]))
    ensures past + (got + []) == past + got
  {
    assert past + (got + [v]) == past + got + [v];
  }

  lemma NoEviction(t: Tracked, depth: nat, cap: nat, o: Observation, all: set<int>, id: int, metric: string)
    requires t.Valid(cap) && t.state.Keys + {o.id} == all && |all| <= cap
    ensures var after := t.Observe(depth, cap, o.id, o.metric, o.value);
            && after.Valid(cap) && after.state.Keys == all
            && after.Series(id, metric) ==
                 if id == o.id && metric == o.metric then Trim(depth, t.Series(id, metric) + [o.value])
                 else t.Series(id, metric)
  {
    ObserveKeeps(t, depth, cap, o);
    OrderSize(t, cap);
    if o.id !in t.state {
      assert all - {o.id} == t.state.Keys;
    }
  }

  // ---- what eviction leaves ----

  lemma {:induction false} ObserveConcat(t: Tracked, depth: nat, cap: nat, x: seq<Observation>, y: seq<Observation>)
    ensures ObserveAll(t, depth, cap, x + y) == ObserveAll(ObserveAll(t, depth, cap, x), depth, cap, y)
    decreases |y|
  {
    if y == [] {
      assert x + y == x;
    } else {
      var n := |y| - 1;
      assert (x + y)[..|x| + n] == x + y[..n];
      ObserveConcat(t, depth, cap, x, y[..n]);
    }
  }

  lemma {:induction false} AllKeep(t: Tracked, depth: nat, cap: nat, obs: seq<Observation>)
    requires t.Valid(cap)
    ensures ObserveAll(t, depth, cap, obs).Valid(cap)
    decreases |obs|
  {
    hide Tracked.Valid, Tracked.Observe;
    if obs != [] {
      AllKeep(t, depth, cap, obs[..|obs| - 1]);
      ObserveKeeps(ObserveAll(t, depth, cap, obs[..|obs| - 1]), depth, cap, obs[|obs| - 1]);
    }
  }

  lemma TrackedAreListed(t: Tracked, cap: nat, id: int)
    requires t.Valid(cap)
    ensures id in t.state <==> id in t.order
  {
    assert id in multiset(t.order) <==> id in multiset(t.state.Keys);
  }

  lemma {:induction false} EvictOrder(t: Tracked, cap: nat)
    ensures t.Evict(cap).order == Trim(cap, t.order)
    decreases |t.order|
  {
    if |t.order| > cap {
      EvictOrder(Tracked(t.state - {t.order[0]}, t.order[1..]), cap);
    }
  }

  /** The newest sensor is never the one dropped. */
  lemma {:induction false} EvictSparesLast(t: Tracked, cap: nat, id: int)
    requires cap >= 1 && multiset(t.order) == multiset(t.state.Keys)
    requires t.order != [] && t.order[|t.order| - 1] == id
    ensures id in t.state && id in t.Evict(cap).state && t.Evict(cap).state[id] == t.state[id]
    decreases |t.order|
  {
    assert id in multiset(t.order);
    if |t.order| > cap {
      var first, next := t.order[0], Tracked(t.state - {t.order[0]}, t.order[1..]);
      assert t.order == [first] + next.order;
      assert multiset(t.order)[first] == 1 && id in multiset(next.order);
      assert multiset(t.state.Keys - {first}) == multiset(t.state.Keys) - multiset{first};
      assert next.state.Keys == t.state.Keys - {first};
      EvictSparesLast(next, cap, id);
    }
  }

  /** What one observation does to the order and to its own series. */
  lemma ObserveSelf(t: Tracked, depth: nat, cap: nat, o: Observation)
    requires cap >= 1 && t.Valid(cap)
    ensures var after := t.Observe(depth, cap, o.id, o.metric, o.value);
            && after.order == (if o.id in t.state then t.order else Trim(cap, t.order + [o.id]))
            && o.id in after.state
            && after.Series(o.id, o.metric) == Trim(depth, t.Series(o.id, o.metric) + [o.value])
  {
    if o.id !in t.state {
      var grown := Tracked(t.state[o.id := map[]], t.order + [o.id]);
      assert grown.state.Keys == t.state.Keys + {o.id};
      EvictOrder(grown, cap);
      EvictSparesLast(grown, cap, o.id);
    }
  }

  /** A new sensor's readings, up to the depth, are all remembered while only it
      reports. */
  lemma {:induction false} RepeatRemembered(t: Tracked, depth: nat, cap: nat, o: Observation, n: nat)
    requires cap >= 1 && t.Valid(cap) && o.id !in t.state && n <= depth
    ensures var after := ObserveAll(t, depth, cap, Repeated(o, n));
            && after.Valid(cap)
            && after.Series(o.id, o.metric) == Repeated(o.value, n)
            && (n > 0 ==> o.id in after.state && after.order == Trim(cap, t.order + [o.id]))
            && (n == 0 ==> after == t)
    decreases n
  {
    hide Tracked.Observe, Tracked.Valid;
    if n > 0 {
      RepeatRemembered(t, depth, cap, o, n - 1);
      var before := ObserveAll(t, depth, cap, Repeated(o, n - 1));
      assert Repeated(o, n)[..n - 1] == Repeated(o, n - 1);
      ObserveSelf(before, depth, cap, o);
      ObserveKeeps(before, depth, cap, o);
    }
  }

  function IdsOf(obs: seq<Observation>): seq<int> { seq(|obs|, i requires 0 <= i < |obs| => obs[i].id) }

  /** New sensors push the oldest out: the newest cap of them all stay listed. */
  lemma {:induction false} NewSensorsOrder(t: Tracked, depth: nat, cap: nat, obs: seq<Observation>)
    requires cap >= 1 && t.Valid(cap)
    requires forall i | 0 <= i < |obs| :: obs[i].id !in t.order
    requires forall i, j | 0 <= i < j < |obs| :: obs[i].id != obs[j].id
    ensures var after := ObserveAll(t, depth, cap, obs);
            after.Valid(cap) && after.order == Trim(cap, t.order + IdsOf(obs))
    decreases |obs|
  {
    hide Tracked.Observe, Tracked.Valid;
    if obs == [] {
      assert t.order + IdsOf(obs) == t.order;
      OrderWithin(t, cap);
    } else {
      var n := |obs| - 1;
      var o, before := obs[n], ObserveAll(t, depth, cap, obs[..n]);
      NewSensorsOrder(t, depth, cap, obs[..n]);
      assert IdsOf(obs) == IdsOf(obs[..n]) + [o.id];
      TrackedAreListed(before, cap, o.id);
      assert o.id !in t.order + IdsOf(obs[..n]);
      ObserveSelf(before, depth, cap, o);
      ObserveKeeps(before, depth, cap, o);
      TrimStep(cap, t.order, IdsOf(obs[..n]), o.id);
    }
  }

  lemma OrderWithin(t: Tracked, cap: nat)
    requires t.Valid(cap)
    ensures Trim(cap, t.order) == t.order
  {
  }
}
