/** The value published for a day, two days or a week (internal/store/window.go):
    the mean of a series' hourly rows weighted by their sample counts, and why it
    is the mean of the raw readings behind them. */
module Window {
  import opened Contents
  import History
  import opened Rollup
  import Quality
  import opened Statistics
  import opened RollupRuns

  datatype Weighted = Weighted(sum: real, count: nat) {
    function Plus(a: Aggregate): Weighted { Weighted(sum + a.avg * a.count as real, count + a.count) }

    /** NULLIF guards the division: no rows, no value. */
    function Mean(): Option<real> { if count == 0 then None else Some(sum / count as real) }
  }

  /** The two sums over a series' rows with lo <= hour < hi. */
  function RowSums(hourly: HourTable, s: Series, lo: int, hi: int): Weighted
    decreases hi - lo
  {
    if hi <= lo then Weighted(0.0, 0)
    else
      var before := RowSums(hourly, s, lo, hi - 1);
      var k := HourKey(hi - 1, s);
      if k in hourly then before.Plus(hourly[k]) else before
  }

  /** The windowed value over every row from hour since on; no row is at or past
      hour end. */
  function Windowed(hourly: HourTable, s: Series, since: int, end: int): Option<real>
    requires forall k | k in hourly :: k.hour < end
  {
    RowSums(hourly, s, since, end).Mean()
  }

  // ---- an hour's aggregate ----

  lemma {:induction false} TotalConcat(a: seq<real>, b: seq<real>)
    ensures Total(a + b) == Total(a) + Total(b)
    decreases |b|
  {
    if b == [] {
      assert a + b == a;
    } else {
      var n := |b| - 1;
      assert (a + b)[..|a| + n] == a + b[..n];
      TotalConcat(a, b[..n]);
    }
  }

  lemma {:induction false} ValuesConcat(raw: RawTable, s: Series, lo: int, mid: int, hi: int)
    requires lo <= mid <= hi
    ensures UsableValues(raw, s, lo, hi) == UsableValues(raw, s, lo, mid) + UsableValues(raw, s, mid, hi)
    decreases hi - mid
  {
    if mid < hi {
      ValuesConcat(raw, s, lo, mid, hi - 1);
    }
  }

  lemma {:induction false} TotalWithin(vs: seq<real>, lo: real, hi: real)
    requires Among(vs, lo, hi)
    ensures lo * |vs| as real <= Total(vs) <= hi * |vs| as real
  {
    if vs != [] {
      var n := |vs| - 1;
      assert vs[n] in vs && forall v | v in vs[..n] :: v in vs;
      TotalWithin(vs[..n], lo, hi);
      OneMore(lo, n as real, |vs| as real);
      OneMore(hi, n as real, |vs| as real);
    }
  }

  lemma OneMore(x: real, n: real, m: real)
    requires m == n + 1.0
    ensures x * m == x * n + x
  {
  }

  lemma {:induction false} ExtremesWithin(vs: seq<real>)
    requires vs != []
    ensures Among(vs, History.Least(vs), History.Greatest(vs))
    ensures History.Least(vs) in vs && History.Greatest(vs) in vs
  {
    if |vs| > 1 {
      var n := |vs| - 1;
      ExtremesWithin(vs[..n]);
      assert vs == vs[..n] + [vs[n]];
    }
  }

  /** An hour's mean lies between its own extremes, and weighs what it stands for. */
  lemma AggregateSound(vs: seq<real>)
    requires vs != []
    ensures var a := AggregateOf(vs); a.count == |vs| && a.avg * a.count as real == Total(vs) && a.min <= a.avg <= a.max
  {
    hide Total, Among, History.Least, History.Greatest;
    var a := AggregateOf(vs);
    ExtremesWithin(vs);
    TotalWithin(vs, a.min, a.max);
    QuotientWithin(Total(vs), |vs| as real, a.min, a.max);
  }

  lemma QuotientWithin(total: real, n: real, lo: real, hi: real)
    requires n > 0.0 && lo * n <= total <= hi * n
    ensures lo <= total / n <= hi && total / n * n == total
  {
    var q := total / n;
    assert q * n == total;
    if q < lo { Scaled(q, lo, n); }
    if hi < q { Scaled(hi, q, n); }
  }

  lemma Scaled(a: real, b: real, n: real)
    requires a < b && n > 0.0
    ensures a * n < b * n
  {
    assert (b - a) * n > 0.0;
  }

  // ---- the window ----

  /** A row that outlived its readings. */
  ghost predicate Stale(db: Database, s: Series, h: int) {
    HourKey(h, s) in db.hourly && HourValues(db.raw, s, h) == []
  }

  /** Every row stands for some reading. */
  predicate Counted(hourly: HourTable) { forall k | k in hourly :: hourly[k].count > 0 }

  lemma RowOf(db: Database, s: Series, h: int)
    requires db.Exact(h)
    ensures var vs := HourValues(db.raw, s, h);
            && (vs == [] ==> (HourKey(h, s) in db.hourly <==> Stale(db, s, h)))
            && (vs != [] ==> !Stale(db, s, h) && HourKey(h, s) in db.hourly && db.hourly[HourKey(h, s)] == AggregateOf(vs))
  {
  }

  /** The rows weigh at least what the readings weigh, and exactly that, with the
      same total, unless some row outlived its readings. */
  lemma {:induction false} SumsOfReadings(db: Database, s: Series, lo: int, hi: int)
    requires lo <= hi && Counted(db.hourly) && forall h | lo <= h < hi :: db.Exact(h)
    ensures var vs := UsableValues(db.raw, s, lo * HOUR, hi * HOUR); var w := RowSums(db.hourly, s, lo, hi);
            && w.count >= |vs|
            && (w == Weighted(Total(vs), |vs|) <==> forall h | lo <= h < hi :: !Stale(db, s, h))
            && (w.count == |vs| <==> forall h | lo <= h < hi :: !Stale(db, s, h))
    decreases hi - lo
  {
    hide Database.Exact, Stale, UsableValues, AggregateOf;
    if lo == hi {
      NoValues(db.raw, s, lo * HOUR);
    } else {
      SumsOfReadings(db, s, lo, hi - 1);
      RowOf(db, s, hi - 1);
      var before, hour := UsableValues(db.raw, s, lo * HOUR, (hi - 1) * HOUR), HourValues(db.raw, s, hi - 1);
      ValuesConcat(db.raw, s, lo * HOUR, (hi - 1) * HOUR, hi * HOUR);
      TotalConcat(before, hour);
      if hour != [] {
        AggregateSound(hour);
      } else {
        assert before + hour == before;
      }
    }
  }

  lemma NoValues(raw: RawTable, s: Series, t: int)
    ensures UsableValues(raw, s, t, t) == []
  {
  }

  /** Given exact rows, the windowed value is the plain mean of every usable
      reading in the covered hours, however they fall into hours, and is absent
      exactly when there is none. */
  lemma WindowIsPlainMean(db: Database, s: Series, since: int, end: int)
    requires since <= end && Counted(db.hourly) && forall h | since <= h < end :: db.Exact(h) && !Stale(db, s, h)
    requires forall k | k in db.hourly :: k.hour < end
    ensures var vs := UsableValues(db.raw, s, since * HOUR, end * HOUR);
            Windowed(db.hourly, s, since, end) == if vs == [] then None else Some(Total(vs) / |vs| as real)
  {
    hide Stale;
    SumsOfReadings(db, s, since, end);
  }

  /** Every row's mean lies between its extremes and stands for some reading. */
  predicate Sound(a: Aggregate) { a.count > 0 && a.min <= a.avg <= a.max }

  lemma {:induction false} SumsWithin(hourly: HourTable, s: Series, lo: int, hi: int, floor: real, ceiling: real)
    requires forall h | lo <= h < hi && HourKey(h, s) in hourly ::
      Sound(hourly[HourKey(h, s)]) && floor <= hourly[HourKey(h, s)].min && hourly[HourKey(h, s)].max <= ceiling
    ensures var w := RowSums(hourly, s, lo, hi);
            floor * w.count as real <= w.sum <= ceiling * w.count as real
    decreases hi - lo
  {
    hide Weighted.Plus, Sound;
    if lo < hi {
      SumsWithin(hourly, s, lo, hi - 1, floor, ceiling);
      if HourKey(hi - 1, s) in hourly {
        PlusWithin(RowSums(hourly, s, lo, hi - 1), hourly[HourKey(hi - 1, s)], floor, ceiling);
      }
    }
  }

  lemma {:induction false} SumsOfNothing(hourly: HourTable, s: Series, lo: int, hi: int)
    requires Counted(hourly)
    ensures RowSums(hourly, s, lo, hi).count == 0 <==> forall h | lo <= h < hi :: HourKey(h, s) !in hourly
    decreases hi - lo
  {
    if lo < hi {
      SumsOfNothing(hourly, s, lo, hi - 1);
    }
  }

  lemma PlusWithin(w: Weighted, a: Aggregate, floor: real, ceiling: real)
    requires floor * w.count as real <= w.sum <= ceiling * w.count as real
    requires Sound(a) && floor <= a.min && a.max <= ceiling
    ensures floor * w.Plus(a).count as real <= w.Plus(a).sum <= ceiling * w.Plus(a).count as real
  {
    var n := a.count as real;
    assert (a.avg - floor) * n >= 0.0;
    assert (ceiling - a.avg) * n >= 0.0;
    assert w.Plus(a).count as real == w.count as real + n;
  }

  /** The windowed value stays between the smallest hourly minimum and the largest
      hourly maximum of the window, and exists whenever the window has a row. */
  lemma WindowWithinExtremes(hourly: HourTable, s: Series, since: int, end: int, floor: real, ceiling: real)
    requires Counted(hourly) && forall k | k in hourly :: k.hour < end
    requires forall h | since <= h < end && HourKey(h, s) in hourly ::
      Sound(hourly[HourKey(h, s)]) && floor <= hourly[HourKey(h, s)].min && hourly[HourKey(h, s)].max <= ceiling
    ensures Windowed(hourly, s, since, end).None? <==> forall h | since <= h < end :: HourKey(h, s) !in hourly
    ensures var v := Windowed(hourly, s, since, end); v.Some? ==> floor <= v.value <= ceiling
  {
    SumsWithin(hourly, s, since, end, floor, ceiling);
    SumsOfNothing(hourly, s, since, end);
    var w := RowSums(hourly, s, since, end);
    if w.count > 0 {
      QuotientWithin(w.sum, w.count as real, floor, ceiling);
    }
  }

  // ---- over whole runs ----

  /** A write that never takes back a reading that was usable. */
  ghost predicate Retracts(raw: RawTable, rows: RawTable) {
    exists k | k in rows && k in raw :: raw[k].Usable() && !rows[k].Usable()
  }

  /** Every row stands for some reading it has not outlived, and none lies past
      the watermark. */
  ghost predicate Tidy(db: Database) {
    forall k | k in db.hourly ::
      && db.hourly[k].count > 0 && HourValues(db.raw, k.series, k.hour) != []
      && db.watermark.Some? && k.hour <= db.watermark.value
  }

  lemma AdvancedTidy(db: Database, h: int)
    requires Tidy(db)
    ensures Tidy(db.Advanced(h))
  {
    hide HourValues;
  }

  lemma {:induction false} DrainTidy(db: Database, bucket: int, current: int, cap: nat, n: nat, tx: nat -> Tx)
    requires Tidy(db)
    ensures Tidy(Drain(db, bucket, current, cap, n, tx).db)
    decreases cap
  {
    hide Tidy, Database.Advanced;
    if cap > 0 && bucket <= current {
      AdvancedTidy(db, bucket);
      if tx(n) == Committed {
        DrainTidy(db.Advanced(bucket), bucket + 1, current, cap - 1, n + 1, tx);
      }
    }
  }

  lemma {:induction false} ValuesStay(raw: RawTable, rows: RawTable, s: Series, lo: int, hi: int)
    requires !Retracts(raw, rows)
    ensures UsableValues(raw, s, lo, hi) != [] ==> UsableValues(raw + rows, s, lo, hi) != []
    decreases hi - lo
  {
    if lo < hi {
      ValuesStay(raw, rows, s, lo, hi - 1);
    }
  }

  lemma CycleTidy(db: Database, c: Cycle, cap: nat)
    requires Tidy(db) && !Retracts(db.raw, c.rows)
    ensures Tidy(After(db, c, cap))
  {
    hide UsableValues, Database.Advanced;
    var written := db.Written(c.rows);
    forall k | k in db.hourly ensures HourValues(written.raw, k.series, k.hour) != [] {
      ValuesStay(db.raw, c.rows, k.series, k.hour * HOUR, (k.hour + 1) * HOUR);
    }
    assert Tidy(written);
    var lo := StartOf(written.watermark, c.hour);
    DrainTidy(written, lo, c.hour, cap, 0, c.faults.tx);
    AdvancedTidy(Drain(written, lo, c.hour, cap, 0, c.faults.tx).db, c.hour - 1);
  }

  lemma {:induction false} RunTidy(db: Database, cycles: seq<Cycle>, cap: nat)
    requires Tidy(db)
    requires forall i | 0 <= i < |cycles| :: !Retracts(Run(db, cycles[..i], cap).raw, cycles[i].rows)
    ensures Tidy(Run(db, cycles, cap))
  {
    hide Tidy, After, Retracts;
    if cycles != [] {
      var n := |cycles| - 1;
      var earlier := cycles[..n];
      forall i | 0 <= i < n ensures !Retracts(Run(db, earlier[..i], cap).raw, earlier[i].rows) {
        assert earlier[..i] == cycles[..i];
      }
      RunTidy(db, earlier, cap);
      CycleTidy(Run(db, earlier, cap), cycles[n], cap);
    }
  }

  /** From ingest to the published number: after any failure-free run of timely
      cycles over an empty database that never takes back a usable reading, the
      window from any hour since the bootstrap hour publishes the mean of every
      usable reading from that hour through the end of the watermark's. */
  lemma RunPublishesPlainMean(cycles: seq<Cycle>, cap: nat, s: Series, since: int)
    requires cap > 0
    requires forall i | 0 <= i < |cycles| :: Clean(cycles[i].faults, cap) && Timely(cycles[i])
    requires var db := Database(map[], map[], None);
             && (forall i | 0 <= i < |cycles| :: !Retracts(Run(db, cycles[..i], cap).raw, cycles[i].rows))
             && Run(db, cycles, cap).watermark.Some?
             && Bootstrap(db, cycles, cap).Some? && Bootstrap(db, cycles, cap).value <= since
             && since <= Run(db, cycles, cap).watermark.value
    ensures var after := Run(Database(map[], map[], None), cycles, cap); var end := after.watermark.value + 1;
            && (forall k | k in after.hourly :: k.hour < end)
            && var vs := UsableValues(after.raw, s, since * HOUR, end * HOUR);
            Windowed(after.hourly, s, since, end) == if vs == [] then None else Some(Total(vs) / |vs| as real)
  {
    hide UsableValues, Run, Bootstrap, Retracts, Timely, Clean, Database.Exact;
    var db: Database := Database(map[], map[], None);
    var after := Run(db, cycles, cap);
    var end := after.watermark.value + 1;
    RunTidy(db, cycles, cap);
    forall h | since <= h < end ensures after.Exact(h) && !Stale(after, s, h) {
      CleanRunIsExact(db, cycles, cap, h);
    }
    WindowIsPlainMean(after, s, since, end);
  }

  // ---- where it stops ----

  lemma AdvancedKeeps(db: Database, hour: int, s: Series, h: int)
    requires Stale(db, s, h)
    ensures var after := db.Advanced(hour);
            after.raw == db.raw && Stale(after, s, h) && after.hourly[HourKey(h, s)] == db.hourly[HourKey(h, s)]
  {
    hide HourValues;
  }

  lemma {:induction false} DrainKeeps(db: Database, bucket: int, current: int, cap: nat, n: nat, tx: nat -> Tx,
                                      s: Series, h: int)
    requires Stale(db, s, h)
    ensures var after := Drain(db, bucket, current, cap, n, tx).db;
            after.raw == db.raw && Stale(after, s, h) && after.hourly[HourKey(h, s)] == db.hourly[HourKey(h, s)]
    decreases cap
  {
    hide HourValues, Database.Advanced;
    if cap > 0 && bucket <= current {
      AdvancedKeeps(db, bucket, s, h);
      if tx(n) == Committed {
        DrainKeeps(db.Advanced(bucket), bucket + 1, current, cap - 1, n + 1, tx, s, h);
      }
    }
  }

  /** A row whose last usable reading is taken back is never removed: whatever
      cycles follow, until the hour has a usable reading again its old mean is
      what the window publishes for the hour. */
  lemma {:induction false} RetractedReadingStaysPublished(db: Database, cycles: seq<Cycle>, cap: nat, s: Series, h: int)
    requires HourKey(h, s) in db.hourly && db.hourly[HourKey(h, s)].count > 0
    requires forall i | 0 < i <= |cycles| :: HourValues(Run(db, cycles[..i], cap).raw, s, h) == []
    ensures var after := Run(db, cycles, cap);
            && HourKey(h, s) in after.hourly && after.hourly[HourKey(h, s)] == db.hourly[HourKey(h, s)]
            && RowSums(after.hourly, s, h, h + 1).Mean() == Some(db.hourly[HourKey(h, s)].avg)
  {
    hide HourValues;
    if cycles == [] {
      RowAlone(db.hourly, s, h);
    } else {
      var n := |cycles| - 1;
      var earlier := cycles[..n];
      forall i | 0 < i <= n ensures HourValues(Run(db, earlier[..i], cap).raw, s, h) == [] {
        assert earlier[..i] == cycles[..i];
      }
      RetractedReadingStaysPublished(db, earlier, cap, s, h);
      assert cycles[..|cycles|] == cycles;
      RowStays(Run(db, earlier, cap), cycles[n], cap, s, h);
      RowAlone(Run(db, cycles, cap).hourly, s, h);
    }
  }

  lemma RowStays(db: Database, c: Cycle, cap: nat, s: Series, h: int)
    requires HourKey(h, s) in db.hourly && HourValues(After(db, c, cap).raw, s, h) == []
    ensures var after := After(db, c, cap);
            HourKey(h, s) in after.hourly && after.hourly[HourKey(h, s)] == db.hourly[HourKey(h, s)]
  {
    hide HourValues, Database.Advanced;
    var written := db.Written(c.rows);
    var lo := StartOf(written.watermark, c.hour);
    CallRaw(written, c.hour, cap, c.faults);
    DrainKeeps(written, lo, c.hour, cap, 0, c.faults.tx, s, h);
    AdvancedKeeps(Drain(written, lo, c.hour, cap, 0, c.faults.tx).db, c.hour - 1, s, h);
  }

  lemma CallRaw(db: Database, current: int, cap: nat, f: Faults)
    ensures Backlog(db, current, cap, f).db.raw == db.raw
  {
    hide Backlog, Database.Exact, Database.SameHour;
    WatermarkMovesOverExactHours(db, current, cap, f);
  }

  lemma RowAlone(hourly: HourTable, s: Series, h: int)
    requires HourKey(h, s) in hourly && hourly[HourKey(h, s)].count > 0
    ensures RowSums(hourly, s, h, h + 1).Mean() == Some(hourly[HourKey(h, s)].avg)
  {
    var a := hourly[HourKey(h, s)];
    assert RowSums(hourly, s, h, h) == Weighted(0.0, 0);
    assert RowSums(hourly, s, h, h + 1) == Weighted(0.0, 0).Plus(a);
    var w := RowSums(hourly, s, h, h + 1);
    QuotientWithin(w.sum, w.count as real, a.avg, a.avg);
  }

  lemma {:induction false} RunConcat(db: Database, x: seq<Cycle>, y: seq<Cycle>, cap: nat)
    ensures Run(db, x + y, cap) == Run(Run(db, x, cap), y, cap)
    decreases |y|
  {
    hide After;
    if y == [] {
      assert x + y == x;
    } else {
      var n := |y| - 1;
      assert (x + y)[..|x| + n] == x + y[..n];
      RunConcat(db, x, y[..n], cap);
    }
  }

  lemma {:induction false} NoneUsable(raw: RawTable, s: Series, lo: int, hi: int)
    requires forall k | k in raw :: k.series == s ==> !raw[k].Usable()
    ensures UsableValues(raw, s, lo, hi) == []
    decreases hi - lo
  {
    if lo < hi {
      NoneUsable(raw, s, lo, hi - 1);
    }
  }

  lemma {:induction false} OnlyValue(s: Series, t: int, row: Raw, lo: int, hi: int)
    requires row.Usable()
    ensures UsableValues(map[RowKey(s, t) := row], s, lo, hi) == if lo <= t < hi then [row.value] else []
    decreases hi - lo
  {
    if lo < hi {
      OnlyValue(s, t, row, lo, hi - 1);
    }
  }

  lemma {:induction false} StaysSilent(db: Database, cycles: seq<Cycle>, cap: nat, s: Series, h: int)
    requires HourValues(db.raw, s, h) == [] && forall i | 0 <= i < |cycles| :: !cycles[i].Writes(h)
    ensures HourValues(Run(db, cycles, cap).raw, s, h) == []
    decreases |cycles|
  {
    hide HourValues, Backlog, Cycle.Writes;
    if cycles != [] {
      var n := |cycles| - 1;
      var before := Run(db, cycles[..n], cap);
      StaysSilent(db, cycles[..n], cap, s, h);
      CallRaw(before.Written(cycles[n].rows), cycles[n].hour, cap, cycles[n].faults);
      HourValuesStay(before.raw, cycles[n], s, h);
    }
  }

  /** A run from nothing that gets there: one usable reading, rolled up, then the
      same reading flagged. Whatever cycles follow without writing to its hour, the
      hour has no usable reading left and is published with the old value. */
  lemma RetractedFromNothing(s: Series, t: int, v: real, gone: Raw, f1: Faults, f2: Faults, hour: int,
                             later: seq<Cycle>, cap: nat)
    requires !gone.Usable() && cap > 0 && f1.firstRead && f1.tx(0) != Aborted
    requires forall i | 0 <= i < |later| :: !later[i].Writes(TruncateHour(t))
    ensures var h := TruncateHour(t);
            var report := Cycle(map[RowKey(s, t) := Raw(v, Quality.FlagOK)], h, f1);
            var retract := Cycle(map[RowKey(s, t) := gone], hour, f2);
            var after := Run(Database(map[], map[], None), [report] + ([retract] + later), cap);
            && HourValues(after.raw, s, h) == []
            && RowSums(after.hourly, s, h, h + 1).Mean() == Some(v)
  {
    hide HourValues, Run, RowSums, Cycle.Writes;
    var h := TruncateHour(t);
    var empty: Database := Database(map[], map[], None);
    var report := Cycle(map[RowKey(s, t) := Raw(v, Quality.FlagOK)], h, f1);
    var retract := Cycle(map[RowKey(s, t) := gone], hour, f2);
    var rest := [retract] + later;
    var first := After(empty, report, cap);
    OneCycle(empty, report, cap);
    RunConcat(empty, [report], rest, cap);
    FirstRow(s, t, v, f1, cap);
    forall i | 0 < i <= |rest| ensures HourValues(Run(first, rest[..i], cap).raw, s, h) == [] {
      assert rest[..i] == [retract] + later[..i - 1];
      RunConcat(first, [retract], later[..i - 1], cap);
      OneCycle(first, retract, cap);
      Retracted(first, s, t, gone, hour, f2, cap);
      StaysSilent(After(first, retract, cap), later[..i - 1], cap, s, h);
    }
    assert rest[..|rest|] == rest;
    RetractedReadingStaysPublished(first, rest, cap, s, h);
  }

  lemma OneCycle(db: Database, c: Cycle, cap: nat)
    ensures Run(db, [c], cap) == After(db, c, cap)
  {
    assert [c][..0] == [];
  }

  lemma FirstRow(s: Series, t: int, v: real, f: Faults, cap: nat)
    requires cap > 0 && f.firstRead && f.tx(0) != Aborted
    ensures var h := TruncateHour(t); var raw: RawTable := map[RowKey(s, t) := Raw(v, Quality.FlagOK)];
            var after := After(Database(map[], map[], None), Cycle(raw, h, f), cap);
            && after.raw == raw
            && HourKey(h, s) in after.hourly && after.hourly[HourKey(h, s)].count == 1 && after.hourly[HourKey(h, s)].avg == v
  {
    hide Backlog;
    var h := TruncateHour(t);
    var raw: RawTable := map[RowKey(s, t) := Raw(v, Quality.FlagOK)];
    var written := Database(map[], map[], None).Written(raw);
    assert written.raw == raw;
    CallExact(written, h, cap, f, h);
    InHour(t, h);
    OnlyReading(s, t, Raw(v, Quality.FlagOK), h);
    AggregateSound([v]);
  }

  lemma OnlyReading(s: Series, t: int, row: Raw, h: int)
    requires row.Usable() && h * HOUR <= t < (h + 1) * HOUR
    ensures HourValues(map[RowKey(s, t) := row], s, h) == [row.value]
  {
    OnlyValue(s, t, row, h * HOUR, (h + 1) * HOUR);
  }

  lemma Retracted(db: Database, s: Series, t: int, gone: Raw, hour: int, f: Faults, cap: nat)
    requires !gone.Usable() && db.raw.Keys == {RowKey(s, t)}
    ensures HourValues(After(db, Cycle(map[RowKey(s, t) := gone], hour, f), cap).raw, s, TruncateHour(t)) == []
  {
    hide Backlog, UsableValues;
    var written := db.Written(map[RowKey(s, t) := gone]);
    CallRaw(written, hour, cap, f);
    NoneUsable(written.raw, s, TruncateHour(t) * HOUR, (TruncateHour(t) + 1) * HOUR);
  }
}
