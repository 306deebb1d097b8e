/** One ingest cycle (internal/ingest/ingest.go): drop the ids reserved for
    official stations, write what is left, then drain the roll-up backlog whatever
    happened before, and decide whether the backlog is alarming. */
module Ingest {
  import opened Contents
  import opened History
  import opened Quality
  import opened Rollup
  import opened RollupRuns

  const MAX_BUCKETS_PER_TICK: nat := 24
  const BACKLOG_ALERT_THRESHOLD := 168
  const OFFICIAL_SENSOR_ID_FLOOR := 9000000000

  // ---- reserved ids ----

  function Community(sc: Scored): Option<Scored> {
    if sc.reading.sensorID >= OFFICIAL_SENSOR_ID_FLOOR then None else Some(sc)
  }

  /** Compacts the batch in place: the keepers end up at the front, in order. */
  method RejectReservedIDs(scored: array<Scored>) returns (kept: nat, rejected: nat)
    modifies scored
    ensures kept <= scored.Length && kept + rejected == scored.Length
    ensures scored[..kept] == Collect(Community, old(scored[..]))
  {
    kept, rejected := 0, 0;
    for i := 0 to scored.Length
      invariant kept + rejected == i && kept <= i
      invariant scored[i..] == old(scored[i..])
      invariant scored[..kept] == Collect(Community, old(scored[..i]))
    {
      ghost var before := old(scored[..i]);
      assert scored[i..][0] == old(scored[i..])[0];
      assert old(scored[..i + 1]) == before + [scored[i]];
      CollectStep(Community, before, scored[i]);
      assert scored[i + 1..] == scored[i..][1..] && old(scored[i + 1..]) == old(scored[i..])[1..];
      if scored[i].reading.sensorID >= OFFICIAL_SENSOR_ID_FLOOR {
        rejected := rejected + 1;
      } else {
        scored[kept] := scored[i];
        kept := kept + 1;
      }
    }
    assert old(scored[..scored.Length]) == old(scored[..]);
  }

  /** No keeper reaches into the reserved range, no community reading is lost, and
      the order stays. */
  lemma KeepersAreCommunity(batch: seq<Scored>)
    ensures forall sc :: sc in Collect(Community, batch) <==> sc in batch && sc.reading.sensorID < OFFICIAL_SENSOR_ID_FLOOR
  {
  }

  // ---- the cycle ----

  function KeyOf(sc: Scored): RowKey { RowKey(Series(sc.reading.sensorID, sc.reading.metric), sc.reading.timestamp) }

  /** The rows an upsert of readings leaves, the last one for a key winning. */
  function Rows(written: seq<Scored>): RawTable {
    if written == [] then map[]
    else
      var last := written[|written| - 1];
      Rows(written[..|written| - 1])[KeyOf(last) := Raw(last.reading.value, last.flag)]
  }

  /** How far the write got: nothing was fetched, accepted or upserted, or the
      first `applied` of the kept readings were written. */
  datatype Write = Unreached | Reached(applied: nat)

  /** Upserts readings one by one, as far as the write gets. */
  method WriteReadings(store: Store, kept: seq<Scored>, applied: nat)
    requires applied <= |kept|
    modifies store
    ensures store.Contents() == old(store.Contents()).Written(Rows(kept[..applied]))
  {
    ghost var was := store.raw;
    for i := 0 to applied
      invariant store.raw == was + Rows(kept[..i])
      invariant store.hourly == old(store.hourly) && store.watermark == old(store.watermark)
    {
      assert kept[..i + 1][..i] == kept[..i];
      store.raw := store.raw[KeyOf(kept[i]) := Raw(kept[i].reading.value, kept[i].flag)];
    }
  }

  /** What a cycle writes. */
  function WrittenBy(batch: seq<Scored>, write: Write): seq<Scored> {
    var kept := Collect(Community, batch);
    match write
    case Unreached => []
    case Reached(n) => if n <= |kept| then kept[..n] else kept
  }

  /** A batch with the flags it is scored with. */
  function Flagged(cfg: Config, batch: seq<Reading>, t: Tracked, depth: nat, cap: nat): seq<Scored> {
    seq(|batch|, i requires 0 <= i < |batch| => Scored(batch[i], FlagIn(cfg, batch, t, depth, cap, batch[i])))
  }

  /** The rows a cycle leaves. accepted is what was fetched and lies inside the
      boundaries, none if either step failed. */
  function RowsOf(cfg: Config, accepted: Option<seq<Reading>>, t: Tracked, depth: nat, cap: nat, write: Write): RawTable {
    if accepted.None? then map[] else Rows(WrittenBy(Flagged(cfg, accepted.value, t, depth, cap), write))
  }

  /** The database after a cycle is that of a write followed by one capped
      roll-up call, and the alert says whether the watermark the call reported is
      at least a week behind. A failed fetch, filter or write does not skip the
      roll-up. The history has seen every usable reading that was accepted, also
      those dropped or not written. */
  method RunOnce(store: Store, hist: Histories, cfg: Config, accepted: Option<seq<Reading>>, write: Write, now: int, f: Faults)
    returns (alert: bool, failed: bool)
    requires hist.depth >= 1
    modifies store, hist
    ensures hist.Contents() == if accepted.None? then old(hist.Contents())
                               else HistoryAfter(cfg, accepted.value, old(hist.Contents()), hist.depth, hist.cap)
    ensures var rows := RowsOf(cfg, accepted, old(hist.Contents()), hist.depth, hist.cap, write);
            var o := Backlog(old(store.Contents()).Written(rows), TruncateHour(now), MAX_BUCKETS_PER_TICK, f);
            && store.Contents() == After(old(store.Contents()), Cycle(rows, TruncateHour(now), f), MAX_BUCKETS_PER_TICK)
            && alert == Alert(o.watermark, TruncateHour(now)) && failed == o.failed
  {
    hide Backlog, HistoryAfter, FlagIn;
    assert store.Contents().Written(map[]) == store.Contents();
    if accepted.Some? {
      ghost var t := hist.Contents();
      var batch := Score(cfg, accepted.value, hist);
      assert batch == Flagged(cfg, accepted.value, t, hist.depth, hist.cap);
      StoreBatch(store, batch, write);
    }
    var processed, reported, failedCall := store.RollupBacklog(now, MAX_BUCKETS_PER_TICK, f);
    alert := Alert(reported, TruncateHour(now));
    failed := failedCall;
  }

  /** The rest of the data pipeline: compact the scored batch, write the keepers. */
  method StoreBatch(store: Store, batch: seq<Scored>, write: Write)
    modifies store
    ensures store.Contents() == old(store.Contents()).Written(Rows(WrittenBy(batch, write)))
  {
    assert store.Contents().Written(map[]) == store.Contents();
    var scored := new Scored[|batch|](i requires 0 <= i < |batch| => batch[i]);
    assert scored[..] == batch;
    var kept, _ := RejectReservedIDs(scored);
    if write.Reached? {
      var n := if write.applied <= kept then write.applied else kept;
      assert scored[..kept][..n] == WrittenBy(batch, write);
      WriteReadings(store, scored[..kept], n);
    }
  }

  // ---- the alert ----

  function BacklogHours(watermark: int, current: int): int { current - watermark }

  predicate Alert(reported: Option<int>, current: int) {
    reported.Some? && BacklogHours(reported.value, current) >= BACKLOG_ALERT_THRESHOLD
  }

  /** The alert judges the gap that is really outstanding: it is raised exactly
      when the stored watermark is a week behind and could be read, whether or not
      the roll-up failed. */
  lemma AlertJudgesTheTrueGap(db: Database, current: int, cap: nat, f: Faults)
    ensures var o := Backlog(db, current, cap, f);
            && (Alert(o.watermark, current) ==> o.db.watermark.Some? && current - o.db.watermark.value >= BACKLOG_ALERT_THRESHOLD)
            && (f.firstRead && f.lastRead ==>
                  (Alert(o.watermark, current) <==>
                   o.db.watermark.Some? && current - o.db.watermark.value >= BACKLOG_ALERT_THRESHOLD))
  {
  }

  /** A roll-up that cannot commit anything does not silence the alert. */
  lemma StalledRollupStillAlerts(db: Database, current: int, f: Faults)
    requires f.firstRead && f.lastRead && f.tx(0) == Aborted && db.watermark.Some?
    ensures var o := Backlog(db, current, MAX_BUCKETS_PER_TICK, f);
            && o.failed && o.db == db
            && (Alert(o.watermark, current) <==> current - db.watermark.value >= BACKLOG_ALERT_THRESHOLD)
  {
  }

  /** The drain comes first, so a failure-free cycle alerts only on an outage a
      day's worth of buckets longer than the threshold. */
  lemma CleanCycleAlerts(db: Database, current: int, f: Faults)
    requires Clean(f, MAX_BUCKETS_PER_TICK) && db.watermark.Some?
    ensures var o := Backlog(db, current, MAX_BUCKETS_PER_TICK, f);
            Alert(o.watermark, current) <==>
            current - db.watermark.value >= BACKLOG_ALERT_THRESHOLD + MAX_BUCKETS_PER_TICK
  {
    hide Backlog;
    CleanCallAdvances(db, current, MAX_BUCKETS_PER_TICK, f);
  }

  // ---- what a cycle writes, said of the batch ----

  /** r is a community reading and k its row. */
  predicate Writes(r: Reading, k: RowKey) {
    r.sensorID < 9000000000 && k == RowKey(Series(r.sensorID, r.metric), r.timestamp)
  }

  /** The last reading of the slice for row k is the i-th. */
  ghost predicate LastFor(batch: seq<Reading>, k: RowKey, i: int) {
    0 <= i < |batch| && Writes(batch[i], k) && forall j | i < j < |batch| :: !Writes(batch[j], k)
  }

  /** The table holds, for each row some community reading is for, the value and the
      flag of the last, and nothing else. */
  ghost predicate Stores(rows: RawTable, batch: seq<Reading>, flagOf: Reading -> Flag) {
    && (forall k :: k in rows <==> exists i :: LastFor(batch, k, i))
    && (forall k, i | LastFor(batch, k, i) :: k in rows && rows[k] == Raw(batch[i].value, flagOf(batch[i])))
  }

  lemma {:induction false} RowsAreTheLast(scored: seq<Scored>, batch: seq<Reading>, flagOf: Reading -> Flag)
    requires |scored| == |batch|
    requires forall i | 0 <= i < |batch| :: scored[i] == Scored(batch[i], flagOf(batch[i]))
    ensures Stores(Rows(Collect(Community, scored)), batch, flagOf)
    decreases |batch|
  {
    if batch != [] {
      var n := |batch| - 1;
      var front, rows := batch[..n], Rows(Collect(Community, scored[..n]));
      assert scored == scored[..n] + [scored[n]] && batch == front + [batch[n]];
      RowsAreTheLast(scored[..n], front, flagOf);
      CollectStep(Community, scored[..n], scored[n]);
      RowsGrow(rows, front, batch[n], flagOf);
      if batch[n].sensorID < 9000000000 {
        RowsStep(Collect(Community, scored[..n]), scored[n]);
      }
    }
  }

  lemma RowsStep(written: seq<Scored>, sc: Scored)
    ensures Rows(written + [sc]) == Rows(written)[KeyOf(sc) := Raw(sc.reading.value, sc.flag)]
  {
  }

  lemma RowsGrow(rows: RawTable, front: seq<Reading>, r: Reading, flagOf: Reading -> Flag)
    requires Stores(rows, front, flagOf)
    ensures var key := RowKey(Series(r.sensorID, r.metric), r.timestamp);
            Stores(if r.sensorID < 9000000000 then rows[key := Raw(r.value, flagOf(r))] else rows, front + [r], flagOf)
  {
    hide LastFor;
    var key := RowKey(Series(r.sensorID, r.metric), r.timestamp);
    forall k, i ensures LastFor(front + [r], k, i) <==> if Writes(r, k) then i == |front| else LastFor(front, k, i) {
      LastForStep(front, r, k, i);
    }
    forall k, i | LastFor(front, k, i) ensures 0 <= i < |front| {
      LastForStep(front, r, k, i);
      InSlice(front, k, i);
    }
    forall k ensures (exists i :: LastFor(front + [r], k, i)) <==> Writes(r, k) || exists i :: LastFor(front, k, i) {
      assert Writes(r, k) ==> LastFor(front + [r], k, |front|);
      if i :| LastFor(front, k, i) {
        assert Writes(r, k) || LastFor(front + [r], k, i);
      }
    }
    var grown := if r.sensorID < 9000000000 then rows[key := Raw(r.value, flagOf(r))] else rows;
    forall k, i | LastFor(front + [r], k, i)
      ensures 0 <= i < |front + [r]| && k in grown && grown[k] == Raw((front + [r])[i].value, flagOf((front + [r])[i]))
    {
      InSlice(front + [r], k, i);
      if !Writes(r, k) {
        assert LastFor(front, k, i);
      }
    }
    forall k ensures k in grown <==> exists i :: LastFor(front + [r], k, i) {
      assert k in grown <==> Writes(r, k) || k in rows;
    }
  }

  lemma InSlice(batch: seq<Reading>, k: RowKey, i: int)
    requires LastFor(batch, k, i)
    ensures 0 <= i < |batch| && Writes(batch[i], k)
  {
  }

  lemma LastForStep(front: seq<Reading>, r: Reading, k: RowKey, i: int)
    ensures LastFor(front + [r], k, i) <==> if Writes(r, k) then i == |front| else LastFor(front, k, i)
  {
    var batch := front + [r];
    if LastFor(batch, k, i) && i < |front| {
      assert !Writes(batch[|front|], k);
      assert forall j | i < j < |front| :: batch[j] == front[j];
    }
  }

  /** Reaching the n-th gathered value is gathering from the slice as far as it takes. */
  lemma {:induction false} CollectPrefix<T, U>(f: T -> Option<U>, s: seq<T>, n: nat) returns (m: nat)
    requires n <= |Collect(f, s)|
    ensures m <= |s| && Collect(f, s[..m]) == Collect(f, s)[..n]
    decreases |s|
  {
    if n == |Collect(f, s)| {
      m := |s|;
      assert s[..m] == s;
    } else {
      var front := s[..|s| - 1];
      assert s == front + [s[|s| - 1]];
      CollectStep(f, front, s[|s| - 1]);
      m := CollectPrefix(f, front, n);
      assert front[..m] == s[..m];
    }
  }

  /** A cycle's rows: of the community readings in the part of the batch the write
      reached, which are as many as it wrote, the last for each row, with its value and
      the flag it is scored with in the whole batch. */
  lemma CycleWrites(cfg: Config, batch: seq<Reading>, t: Tracked, depth: nat, cap: nat, n: nat) returns (m: nat)
    ensures var community := (r: Reading) => r.sensorID < 9000000000;
            && m <= |batch|
            && Count(community, batch[..m]) == (if n <= Count(community, batch) then n else Count(community, batch))
    ensures Stores(RowsOf(cfg, Some(batch), t, depth, cap, Reached(n)), batch[..m], (r: Reading) => FlagIn(cfg, batch, t, depth, cap, r))
  {
    hide FlagIn, Collect, Rows, Stores;
    var community := (r: Reading) => r.sensorID < 9000000000;
    var flagOf := (r: Reading) => FlagIn(cfg, batch, t, depth, cap, r);
    var scored := Flagged(cfg, batch, t, depth, cap);
    CommunityCount(scored, batch, flagOf);
    var kept := Collect(Community, scored);
    if n <= |kept| {
      m := CollectPrefix(Community, scored, n);
    } else {
      m := |batch|;
      assert scored[..m] == scored;
    }
    CommunityCount(scored[..m], batch[..m], flagOf);
    RowsAreTheLast(scored[..m], batch[..m], flagOf);
    assert batch[..|batch|] == batch;
  }

  lemma {:induction false} CommunityCount(scored: seq<Scored>, batch: seq<Reading>, flagOf: Reading -> Flag)
    requires |scored| == |batch|
    requires forall i | 0 <= i < |batch| :: scored[i] == Scored(batch[i], flagOf(batch[i]))
    ensures |Collect(Community, scored)| == Count((r: Reading) => r.sensorID < 9000000000, batch)
    decreases |batch|
  {
    if batch != [] {
      var n := |batch| - 1;
      assert scored == scored[..n] + [scored[n]] && batch == batch[..n] + [batch[n]];
      CommunityCount(scored[..n], batch[..n], flagOf);
      CollectStep(Community, scored[..n], scored[n]);
      CountStep((r: Reading) => r.sensorID < 9000000000, batch[..n], batch[n]);
    }
  }

  /** A cycle whose fetch, filter or write fails before the first row writes none. */
  lemma NothingWritten(cfg: Config, accepted: Option<seq<Reading>>, t: Tracked, depth: nat, cap: nat, write: Write)
    requires accepted.None? || write.Unreached?
    ensures RowsOf(cfg, accepted, t, depth, cap, write) == map[]
  {
  }
}
