/** What the rollup watermark promises over calls and over whole runs of
    write-then-roll-up cycles, whatever the database does to each transaction. */
module RollupRuns {
  import opened Contents
  import opened Rollup

  // ---- one call ----

  /** Every transaction one call can make commits and both reads succeed. */
  ghost predicate Clean(f: Faults, cap: nat) {
    f.firstRead && f.lastRead && forall i: nat | i <= cap :: f.tx(i) == Committed
  }

  /** How many of m transactions, from the n-th on, commit before one does not. */
  function Leading(tx: nat -> Tx, n: nat, m: nat): (k: nat)
    ensures k <= m
    ensures forall i | n <= i < n + k :: tx(i) == Committed
    ensures k < m ==> tx(n + k) != Committed
    decreases m
  {
    if m == 0 || tx(n) != Committed then 0 else 1 + Leading(tx, n + 1, m - 1)
  }

  /** How many buckets a call is to drain. */
  function Due(watermark: Option<int>, current: int, cap: nat): nat {
    Least(cap, current + 1 - StartOf(watermark, current))
  }

  /** How many of them take effect. A transaction that takes effect unacknowledged
      ends the call like any other failure. */
  function Applied(watermark: Option<int>, current: int, cap: nat, f: Faults): nat {
    if !f.firstRead then 0
    else
      var m := Due(watermark, current, cap);
      var k := Leading(f.tx, 0, m);
      if k < m && f.tx(k) == Unacknowledged then k + 1 else k
  }

  /** The watermark a call leaves. */
  function WatermarkAfter(watermark: Option<int>, current: int, cap: nat, f: Faults): Option<int> {
    Moved(watermark, StartOf(watermark, current), Applied(watermark, current, cap, f))
  }

  /** The watermark after rolling up n hours from lo. */
  function Moved(watermark: Option<int>, lo: int, n: nat): Option<int> {
    if n == 0 || (watermark.Some? && watermark.value >= lo + n - 1) then watermark else Some(lo + n - 1)
  }

  /** The call gets as far as trying to redo the previous hour: it drained all it
      was to drain, could read the watermark back, and found no backlog left. */
  predicate ReachesRedo(watermark: Option<int>, current: int, cap: nat, f: Faults) {
    var after := WatermarkAfter(watermark, current, cap, f);
    && f.firstRead && f.lastRead
    && Leading(f.tx, 0, Due(watermark, current, cap)) == Due(watermark, current, cap)
    && after.Some? && after.value >= current - 1
  }

  predicate Redoes(watermark: Option<int>, current: int, cap: nat, f: Faults) {
    ReachesRedo(watermark, current, cap, f) && f.tx(Due(watermark, current, cap)) != Aborted
  }

  /** The call rolls hour h up, in the drain or as the redo. */
  predicate Rolls(watermark: Option<int>, current: int, cap: nat, f: Faults, h: int) {
    var lo := StartOf(watermark, current);
    || lo <= h < lo + Applied(watermark, current, cap, f)
    || (h == current - 1 && Redoes(watermark, current, cap, f))
  }

  lemma {:induction false} DrainCounts(db: Database, bucket: int, current: int, cap: nat, n: nat, tx: nat -> Tx)
    ensures var d := Drain(db, bucket, current, cap, n, tx);
            var m := if current < bucket then 0 else Least(cap, current + 1 - bucket);
            var k := Leading(tx, n, m);
            && d.processed == k && (d.failed <==> k < m)
            && d.applied == if k < m && tx(n + k) == Unacknowledged then k + 1 else k
    decreases cap
  {
    hide Database.Advanced;
    if cap > 0 && bucket <= current && tx(n) == Committed {
      DrainCounts(db.Advanced(bucket), bucket + 1, current, cap - 1, n + 1, tx);
    }
  }

  /** What the drain leaves, hour by hour. */
  lemma DrainExact(db: Database, current: int, cap: nat, f: Faults, h: int)
    requires f.firstRead
    ensures var lo := StartOf(db.watermark, current); var d := Drain(db, lo, current, cap, 0, f.tx);
            var n := Applied(db.watermark, current, cap, f);
            && d.db.raw == db.raw && d.db.watermark == WatermarkAfter(db.watermark, current, cap, f)
            && d.processed == Leading(f.tx, 0, Due(db.watermark, current, cap))
            && (d.failed <==> d.processed < Due(db.watermark, current, cap))
            && (d.db.Exact(h) <==> lo <= h < lo + n || db.Exact(h))
            && (!(lo <= h < lo + n) ==> db.SameHour(d.db, h))
  {
    hide Drain, Database.Exact, Database.SameHour;
    var lo := StartOf(db.watermark, current);
    DrainCounts(db, lo, current, cap, 0, f.tx);
    DrainFacts(db, lo, current, cap, 0, f.tx);
    var d := Drain(db, lo, current, cap, 0, f.tx);
    if db.SameHour(d.db, h) {
      SameHourExact(db, d.db, h);
    }
  }

  lemma SameHourExact(a: Database, b: Database, h: int)
    requires a.raw == b.raw && a.SameHour(b, h)
    ensures a.Exact(h) <==> b.Exact(h)
  {
  }

  /** After a call an hour is exact if and only if the call rolled it up or it was
      exact before; an hour it did not roll up keeps its rows. */
  lemma CallExact(db: Database, current: int, cap: nat, f: Faults, h: int)
    ensures var o := Backlog(db, current, cap, f); var rolled := Rolls(db.watermark, current, cap, f, h);
            && o.db.raw == db.raw && o.db.watermark == WatermarkAfter(db.watermark, current, cap, f)
            && (o.db.Exact(h) <==> rolled || db.Exact(h))
            && (!rolled ==> db.SameHour(o.db, h))
  {
    hide Drain, RolledUp, Database.Exact, Database.SameHour, HourValues, Leading;
    SameHourReflexive(db, h);
    if f.firstRead {
      DrainExact(db, current, cap, f, h);
      var drained := Drain(db, StartOf(db.watermark, current), current, cap, 0, f.tx).db;
      var redone := drained.Advanced(current - 1);
      AdvancedExact(drained, current - 1);
      if h != current - 1 {
        SameHourExact(drained, redone, h);
        SameHourTransitive(db, drained, redone, h);
      }
    }
  }

  /** Whatever fails, the watermark never moves back, never passes the current
      hour, and every hour it moves over was rolled up by this very call. */
  lemma WatermarkMovesOverExactHours(db: Database, current: int, cap: nat, f: Faults)
    ensures var o := Backlog(db, current, cap, f);
            && o.db.raw == db.raw
            && (db.watermark.Some? ==> o.db.watermark.Some? && o.db.watermark.value >= db.watermark.value)
            && (o.db.watermark != db.watermark ==>
                  && o.db.watermark.Some? && o.db.watermark.value <= current
                  && (forall h | StartOf(db.watermark, current) <= h <= o.db.watermark.value :: o.db.Exact(h))
                  && StartOf(db.watermark, current) == if db.watermark.Some? then db.watermark.value + 1 else current)
  {
    hide Backlog, Database.Exact, Database.SameHour, Leading;
    CallExact(db, current, cap, f, current);
    var o := Backlog(db, current, cap, f);
    forall h ensures o.db.Exact(h) <==> Rolls(db.watermark, current, cap, f, h) || db.Exact(h) {
      CallExact(db, current, cap, f, h);
    }
  }

  /** The reported watermark is never anything but the stored one, failed call or
      not, and it is reported whenever it could be read. */
  lemma ReportIsHonest(db: Database, current: int, cap: nat, f: Faults)
    ensures var o := Backlog(db, current, cap, f);
            && (o.watermark.Some? ==> o.watermark == o.db.watermark)
            && (f.firstRead && f.lastRead ==> o.watermark == o.db.watermark)
            && (!o.failed ==> f.firstRead && f.lastRead)
  {
    hide RolledUp;
  }

  /** The first bucket whose transaction does not commit ends the drain there, on
      a fresh database and a caught-up one as well: what came before it is kept and
      counted, nothing later is touched, and what is reported is what is stored. */
  lemma FailureKeepsWhatCommitted(db: Database, current: int, cap: nat, f: Faults, i: nat)
    requires f.firstRead && i < Due(db.watermark, current, cap)
    requires f.tx(i) != Committed && forall j: nat | j < i :: f.tx(j) == Committed
    ensures var o := Backlog(db, current, cap, f); var done := if f.tx(i) == Aborted then i else i + 1;
            var lo := StartOf(db.watermark, current);
            && o.failed && o.processed == i
            && o.db.watermark == Moved(db.watermark, lo, done)
            && (f.lastRead ==> o.watermark == o.db.watermark)
            && (forall h | lo <= h < lo + done :: o.db.Exact(h))
            && (forall h | h < lo || lo + done <= h :: db.SameHour(o.db, h))
  {
    hide RolledUp, Database.Exact, Database.SameHour, Drain;
    var lo := StartOf(db.watermark, current);
    DrainCounts(db, lo, current, cap, 0, f.tx);
    DrainFacts(db, lo, current, cap, 0, f.tx);
  }

  /** A redo that does not commit fails the call after a complete drain: the drain
      is kept and counted, the watermark is reported as stored, and only the
      previous hour is in question, which an unacknowledged redo rolled up and an
      aborted one did not touch again. */
  lemma FailedRedoKeepsTheDrain(db: Database, current: int, cap: nat, f: Faults)
    requires ReachesRedo(db.watermark, current, cap, f) && f.tx(Due(db.watermark, current, cap)) != Committed
    ensures var o := Backlog(db, current, cap, f); var lo, m := StartOf(db.watermark, current), Due(db.watermark, current, cap);
            && o.failed && o.processed == m
            && o.watermark == o.db.watermark == Moved(db.watermark, lo, m)
            && (forall h | lo <= h < lo + m :: o.db.Exact(h))
            && (f.tx(m) == Unacknowledged ==> o.db.Exact(current - 1))
            && (forall h | !(lo <= h < lo + m) && (h != current - 1 || f.tx(m) == Aborted) :: db.SameHour(o.db, h))
  {
    hide RolledUp, Database.Exact, Database.SameHour, Drain, Leading;
    var o := Backlog(db, current, cap, f);
    DrainExact(db, current, cap, f, current);
    forall h ensures (o.db.Exact(h) <==> Rolls(db.watermark, current, cap, f, h) || db.Exact(h))
                     && (!Rolls(db.watermark, current, cap, f, h) ==> db.SameHour(o.db, h))
    {
      CallExact(db, current, cap, f, h);
    }
    CallExact(db, current, cap, f, current);
  }

  // ---- draining a backlog ----

  /** Advances the watermark by exactly the cap, or to the current hour. */
  lemma CleanCallAdvances(db: Database, current: int, cap: nat, f: Faults)
    requires Clean(f, cap) && db.watermark.Some?
    ensures var o := Backlog(db, current, cap, f);
            && !o.failed && o.watermark == o.db.watermark
            && o.db.watermark == Some(if current <= db.watermark.value then db.watermark.value
                                      else db.watermark.value + Least(cap, current - db.watermark.value))
  {
    hide Database.Exact, Database.SameHour, Drain;
    DrainExact(db, current, cap, f, current);
    CallExact(db, current, cap, f, current);
  }

  /** k calls, all in the same hour. */
  ghost function Calls(db: Database, current: int, cap: nat, f: nat -> Faults, k: nat): Database {
    if k == 0 then db else Backlog(Calls(db, current, cap, f, k - 1), current, cap, f(k - 1)).db
  }

  /** A backlog of g hours is drained by ceil(g / cap) failure-free calls and by
      no fewer. */
  lemma {:induction false} DrainedAfter(db: Database, current: int, cap: nat, f: nat -> Faults, k: nat)
    requires db.watermark.Some? && db.watermark.value <= current
    requires forall i: nat | i < k :: Clean(f(i), cap)
    ensures var gap := current - db.watermark.value; var after := Calls(db, current, cap, f, k);
            && after.watermark == Some(db.watermark.value + Least(gap, k * cap))
            && (after.watermark == Some(current) <==> k * cap >= gap)
  {
    hide Backlog;
    if k > 0 {
      DrainedAfter(db, current, cap, f, k - 1);
      CleanCallAdvances(Calls(db, current, cap, f, k - 1), current, cap, f(k - 1));
      assert k * cap == (k - 1) * cap + cap;
    }
  }

  // ---- whole runs ----

  /** One ingest cycle: the rows whose write took effect, then one roll-up call. */
  datatype Cycle = Cycle(rows: RawTable, hour: int, faults: Faults) {
    predicate Writes(h: int) { exists k :: k in rows && TruncateHour(k.time) == h }

    /** A failure-free cycle that redoes the hour. */
    ghost predicate Settles(cap: nat, h: int) { Clean(faults, cap) && (hour == h || hour == h + 1) }
  }

  ghost function After(db: Database, c: Cycle, cap: nat): Database {
    Backlog(db.Written(c.rows), c.hour, cap, c.faults).db
  }

  ghost function Run(db: Database, cycles: seq<Cycle>, cap: nat): Database {
    if cycles == [] then db
    else After(Run(db, cycles[..|cycles| - 1], cap), cycles[|cycles| - 1], cap)
  }

  lemma {:induction false} WriteLocal(raw: RawTable, rows: RawTable, s: Series, lo: int, hi: int)
    requires forall k | k in rows :: !(lo <= k.time < hi)
    ensures UsableValues(raw + rows, s, lo, hi) == UsableValues(raw, s, lo, hi)
    decreases hi - lo
  {
    if lo < hi {
      WriteLocal(raw, rows, s, lo, hi - 1);
      assert RowKey(s, hi - 1) !in rows;
    }
  }

  /** A write to other hours leaves an hour's usable readings as they were. */
  lemma WriteElsewhere(db: Database, c: Cycle, h: int)
    requires !c.Writes(h)
    ensures db.Written(c.rows).Exact(h) <==> db.Exact(h)
  {
    hide HourValues;
    forall s ensures HourValues(db.raw + c.rows, s, h) == HourValues(db.raw, s, h) {
      HourValuesStay(db.raw, c, s, h);
    }
  }

  lemma HourValuesStay(raw: RawTable, c: Cycle, s: Series, h: int)
    requires !c.Writes(h)
    ensures HourValues(raw + c.rows, s, h) == HourValues(raw, s, h)
  {
    forall k | k in c.rows ensures !(h * HOUR <= k.time < (h + 1) * HOUR) {
      if h * HOUR <= k.time < (h + 1) * HOUR {
        InHour(k.time, h);
      }
    }
    WriteLocal(raw, c.rows, s, h * HOUR, (h + 1) * HOUR);
  }

  lemma InHour(t: int, h: int)
    ensures TruncateHour(t) == h <==> h * HOUR <= t < (h + 1) * HOUR
  {
  }

  /** What one cycle does to one hour. */
  lemma CycleStep(db: Database, c: Cycle, cap: nat, h: int)
    ensures var after := After(db, c, cap); var lo := StartOf(db.watermark, c.hour);
            && (db.watermark.Some? ==> after.watermark.Some? && db.watermark.value <= after.watermark.value)
            && (after.watermark != db.watermark && lo <= h <= after.watermark.value ==> after.Exact(h))
            && (db.watermark.None? && after.watermark.Some? ==> after.watermark.value == c.hour)
            && (db.Exact(h) && !c.Writes(h) ==> after.Exact(h))
            && (c.Settles(cap, h) && cap > 0 && after.watermark.Some? && h <= after.watermark.value ==> after.Exact(h))
            && (db.watermark.Some? && h <= db.watermark.value && c.hour != h && c.hour != h + 1 && !c.Writes(h) ==>
                  (after.Exact(h) <==> db.Exact(h)))
  {
    hide Backlog, Database.Exact, Database.SameHour, Cycle.Writes, Leading;
    CallExact(db.Written(c.rows), c.hour, cap, c.faults, h);
    if !c.Writes(h) {
      WriteElsewhere(db, c, h);
    }
  }

  /** The first value the watermark of a run from a fresh database took. */
  ghost function Bootstrap(db: Database, cycles: seq<Cycle>, cap: nat): Option<int> {
    if cycles == [] then db.watermark
    else
      var earlier := Bootstrap(db, cycles[..|cycles| - 1], cap);
      if earlier.Some? then earlier else Run(db, cycles, cap).watermark
  }

  /** Each write to the hour was in a failure-free cycle of that hour or the next
      one, or was followed by one. */
  ghost predicate Settled(cycles: seq<Cycle>, cap: nat, h: int) {
    forall i | 0 <= i < |cycles| && cycles[i].Writes(h) ::
      exists j :: i <= j < |cycles| && cycles[j].Settles(cap, h)
  }

  /** Over any run from a fresh database, with any failures, any clock and any
      writes: every settled hour from the bootstrap hour through the watermark
      holds exactly the aggregates of its usable readings. */
  lemma {:induction false} SettledHoursAreExact(db: Database, cycles: seq<Cycle>, cap: nat, h: int)
    requires db.watermark.None? && cap > 0
    ensures var end := Run(db, cycles, cap); var first := Bootstrap(db, cycles, cap);
            && (end.watermark.Some? <==> first.Some?)
            && (end.watermark.Some? ==> first.value <= end.watermark.value)
            && (end.watermark.Some? && first.value <= h <= end.watermark.value && Settled(cycles, cap, h) ==> end.Exact(h))
  {
    hide After, Database.Exact, Cycle.Writes, Cycle.Settles;
    if cycles != [] {
      var earlier, last := cycles[..|cycles| - 1], cycles[|cycles| - 1];
      SettledHoursAreExact(db, earlier, cap, h);
      CycleStep(Run(db, earlier, cap), last, cap, h);
      if Settled(cycles, cap, h) && !last.Settles(cap, h) {
        SettledEarlier(cycles, cap, h);
      }
    }
  }

  lemma SettledEarlier(cycles: seq<Cycle>, cap: nat, h: int)
    requires cycles != [] && Settled(cycles, cap, h) && !cycles[|cycles| - 1].Settles(cap, h)
    ensures !cycles[|cycles| - 1].Writes(h) && Settled(cycles[..|cycles| - 1], cap, h)
  {
  }

  /** The cycle writes only to its own hour and the one before. */
  ghost predicate Timely(c: Cycle) { forall h :: c.Writes(h) ==> h == c.hour || h == c.hour - 1 }

  /** Failure-free cycles that write no further back than one hour keep every
      hour from the bootstrap hour through the watermark exact, also when the
      clock steps back. */
  lemma CleanRunIsExact(db: Database, cycles: seq<Cycle>, cap: nat, h: int)
    requires db.watermark.None? && cap > 0
    requires forall i | 0 <= i < |cycles| :: Clean(cycles[i].faults, cap) && Timely(cycles[i])
    ensures var end := Run(db, cycles, cap);
            end.watermark.Some? && Bootstrap(db, cycles, cap).value <= h <= end.watermark.value ==> end.Exact(h)
  {
    SettledHoursAreExact(db, cycles, cap, h);
    forall i | 0 <= i < |cycles| && cycles[i].Writes(h) ensures cycles[i].Settles(cap, h) {}
  }

  /** Over any run of timely cycles, with any failures: an hour from the bootstrap
      hour through the watermark that is not exact was written by a failing cycle of
      that hour or the next. */
  lemma SpoiledByItsOwnFailures(db: Database, cycles: seq<Cycle>, cap: nat, h: int)
    requires db.watermark.None? && cap > 0 && forall i | 0 <= i < |cycles| :: Timely(cycles[i])
    ensures var end := Run(db, cycles, cap);
            end.watermark.Some? && Bootstrap(db, cycles, cap).value <= h <= end.watermark.value && !end.Exact(h) ==>
              exists i :: 0 <= i < |cycles| && cycles[i].Writes(h) && !Clean(cycles[i].faults, cap)
                && (cycles[i].hour == h || cycles[i].hour == h + 1)
  {
    hide Run, Bootstrap, Clean, Database.Exact, Cycle.Writes;
    SettledHoursAreExact(db, cycles, cap, h);
    if !Settled(cycles, cap, h) {
      var i :| 0 <= i < |cycles| && cycles[i].Writes(h)
               && !exists j :: i <= j < |cycles| && cycles[j].Settles(cap, h);
      assert !cycles[i].Settles(cap, h);
    }
  }

  /** So a single failing cycle leaves at most its own hour and the one before
      inexact, whenever it comes in the run. */
  lemma FailureSpoilsAtMostTwoHours(db: Database, cycles: seq<Cycle>, failed: nat, cap: nat, h: int)
    requires db.watermark.None? && cap > 0 && failed < |cycles| && forall i | 0 <= i < |cycles| :: Timely(cycles[i])
    requires forall i | 0 <= i < |cycles| && i != failed :: Clean(cycles[i].faults, cap)
    ensures var end := Run(db, cycles, cap);
            end.watermark.Some? && Bootstrap(db, cycles, cap).value <= h <= end.watermark.value ==>
              end.Exact(h) || h == cycles[failed].hour || h == cycles[failed].hour - 1
  {
    hide Run, Bootstrap, Clean, Database.Exact, Cycle.Writes;
    SpoiledByItsOwnFailures(db, cycles, cap, h);
  }

  /** Only a cycle in the hour itself or in the next one repairs an hour the
      watermark has passed: without one, and without writes to it, the hour stays
      as exact or inexact as it was. */
  lemma {:induction false} OnlyItsOwnCyclesRepair(db: Database, cycles: seq<Cycle>, cap: nat, h: int)
    requires db.watermark.Some? && h <= db.watermark.value
    requires forall i | 0 <= i < |cycles| :: !cycles[i].Writes(h) && cycles[i].hour != h && cycles[i].hour != h + 1
    ensures var end := Run(db, cycles, cap);
            && end.watermark.Some? && h <= end.watermark.value
            && (end.Exact(h) <==> db.Exact(h))
  {
    hide After, Database.Exact, Cycle.Writes;
    if cycles != [] {
      var earlier, last := cycles[..|cycles| - 1], cycles[|cycles| - 1];
      OnlyItsOwnCyclesRepair(db, earlier, cap, h);
      CycleStep(Run(db, earlier, cap), last, cap, h);
    }
  }

  // ---- exactly when an hour is exact ----

  /** The i-th cycle of a run rolls hour h up. */
  ghost predicate RollsAt(db: Database, cycles: seq<Cycle>, cap: nat, i: nat, h: int)
    requires i < |cycles|
  {
    Rolls(Run(db, cycles[..i], cap).watermark, cycles[i].hour, cap, cycles[i].faults, h)
  }

  /** Over any run: from the last cycle that wrote to an hour on, the hour ends
      exact if and only if some cycle rolled it up, or that write left it exact. */
  lemma {:induction false} ExactSinceLastWrite(db: Database, cycles: seq<Cycle>, cap: nat, h: int, k: nat)
    requires k < |cycles| && forall i | k < i < |cycles| :: !cycles[i].Writes(h)
    ensures Run(db, cycles, cap).Exact(h) <==>
              || Run(db, cycles[..k], cap).Written(cycles[k].rows).Exact(h)
              || exists i :: k <= i < |cycles| && RollsAt(db, cycles, cap, i, h)
    decreases |cycles|
  {
    hide Backlog, Rolls, Database.Exact, Database.SameHour, Database.Written, Cycle.Writes;
    var n := |cycles| - 1;
    var front, last := cycles[..n], cycles[n];
    var before := Run(db, front, cap);
    LastCycle(before, last, cap, h);
    if n == k {
      assert RollsAt(db, cycles, cap, n, h) <==> Rolls(before.watermark, last.hour, cap, last.faults, h);
    } else {
      ExactSinceLastWrite(db, front, cap, h, k);
      WriteElsewhere(before, last, h);
      assert front[..k] == cycles[..k];
      forall i | k <= i < n ensures RollsAt(db, front, cap, i, h) == RollsAt(db, cycles, cap, i, h) {
        assert front[..i] == cycles[..i];
      }
      assert RollsAt(db, cycles, cap, n, h) <==> Rolls(before.watermark, last.hour, cap, last.faults, h);
    }
  }

  lemma LastCycle(db: Database, c: Cycle, cap: nat, h: int)
    ensures After(db, c, cap).Exact(h) <==>
              Rolls(db.watermark, c.hour, cap, c.faults, h) || db.Written(c.rows).Exact(h)
  {
    hide Backlog, Rolls, Database.Exact;
    CallExact(db.Written(c.rows), c.hour, cap, c.faults, h);
  }

  lemma {:induction false} OneMoreValue(raw: RawTable, s: Series, lo: int, hi: int, t: int, row: Raw)
    requires lo <= t < hi && row.Usable()
    requires RowKey(s, t) in raw ==> !raw[RowKey(s, t)].Usable()
    ensures |UsableValues(raw[RowKey(s, t) := row], s, lo, hi)| == |UsableValues(raw, s, lo, hi)| + 1
    decreases hi - lo
  {
    if t < hi - 1 {
      OneMoreValue(raw, s, lo, hi - 1, t, row);
    } else {
      SameElsewhere(raw, s, lo, hi - 1, t, row);
    }
  }

  lemma {:induction false} SameElsewhere(raw: RawTable, s: Series, lo: int, hi: int, t: int, row: Raw)
    requires hi <= t
    ensures UsableValues(raw[RowKey(s, t) := row], s, lo, hi) == UsableValues(raw, s, lo, hi)
    decreases hi - lo
  {
    if lo < hi {
      SameElsewhere(raw, s, lo, hi - 1, t, row);
    }
  }

  /** A new usable reading makes its hour inexact, whether or not its series has a
      row there already, so long as that row counts what there was. */
  lemma NewReadingSpoils(db: Database, s: Series, t: int, row: Raw)
    requires row.Usable() && (RowKey(s, t) in db.raw ==> !db.raw[RowKey(s, t)].Usable())
    requires var k := HourKey(TruncateHour(t), s);
             k in db.hourly ==> db.hourly[k].count == |HourValues(db.raw, s, TruncateHour(t))|
    ensures !db.Written(map[RowKey(s, t) := row]).Exact(TruncateHour(t))
  {
    var h := TruncateHour(t);
    InHour(t, h);
    var written := db.Written(map[RowKey(s, t) := row]);
    assert written.raw == db.raw[RowKey(s, t) := row];
    OneMoreReading(db.raw, s, t, h, row);
    hide HourValues;
    assert HourValues(written.raw, s, h) != [];
  }

  lemma OneMoreReading(raw: RawTable, s: Series, t: int, h: int, row: Raw)
    requires h * HOUR <= t < (h + 1) * HOUR && row.Usable()
    requires RowKey(s, t) in raw ==> !raw[RowKey(s, t)].Usable()
    ensures |HourValues(raw[RowKey(s, t) := row], s, h)| == |HourValues(raw, s, h)| + 1
  {
    OneMoreValue(raw, s, h * HOUR, (h + 1) * HOUR, t, row);
  }

  /** A late reading, of a series with a row in its hour or without one, reaches
      the hourly table if and only if its own or a later cycle rolls the hour up. */
  lemma LateReadingIsRolledUpOrLost(db: Database, s: Series, t: int, row: Raw, hour: int, f: Faults,
                                    later: seq<Cycle>, cap: nat)
    requires row.Usable() && (RowKey(s, t) in db.raw ==> !db.raw[RowKey(s, t)].Usable())
    requires var k := HourKey(TruncateHour(t), s);
             k in db.hourly ==> db.hourly[k].count == |HourValues(db.raw, s, TruncateHour(t))|
    requires forall i | 0 <= i < |later| :: !later[i].Writes(TruncateHour(t))
    ensures var all := [Cycle(map[RowKey(s, t) := row], hour, f)] + later;
            Run(db, all, cap).Exact(TruncateHour(t)) <==>
              exists i :: 0 <= i < |all| && RollsAt(db, all, cap, i, TruncateHour(t))
  {
    hide Run, RollsAt, Cycle.Writes, Database.Exact, HourValues;
    var c := Cycle(map[RowKey(s, t) := row], hour, f);
    NewReadingSpoils(db, s, t, row);
    ExactSinceLastWrite(db, [c] + later, cap, TruncateHour(t), 0);
    NoCycles(db, [c] + later, cap);
  }

  lemma NoCycles(db: Database, cycles: seq<Cycle>, cap: nat)
    ensures Run(db, cycles[..0], cap) == db
  {
  }

  /** So when the watermark has passed the hour, a cycle of the next hour that does
      not get its redo through loses the reading for as long as only later hours
      follow, whichever transaction or read of it failed. */
  lemma FailedRedoIsFinal(db: Database, s: Series, t: int, row: Raw, f: Faults, later: seq<Cycle>, cap: nat)
    requires row.Usable() && (RowKey(s, t) in db.raw ==> !db.raw[RowKey(s, t)].Usable())
    requires var k := HourKey(TruncateHour(t), s);
             k in db.hourly ==> db.hourly[k].count == |HourValues(db.raw, s, TruncateHour(t))|
    requires var h := TruncateHour(t);
             && db.watermark.Some? && db.watermark.value >= h && !Redoes(db.watermark, h + 1, cap, f)
             && forall i | 0 <= i < |later| :: !later[i].Writes(h) && later[i].hour > h + 1
    ensures !Run(db, [Cycle(map[RowKey(s, t) := row], TruncateHour(t) + 1, f)] + later, cap).Exact(TruncateHour(t))
  {
    hide Cycle.Writes, Database.Exact, HourValues, Run;
    var h := TruncateHour(t);
    var c := Cycle(map[RowKey(s, t) := row], h + 1, f);
    var all := [c] + later;
    LateReadingIsRolledUpOrLost(db, s, t, row, h + 1, f, later, cap);
    forall i | 0 <= i < |all| ensures !RollsAt(db, all, cap, i, h) {
      PassedWatermark(db, all[..i], cap, h);
      NoCycles(db, all, cap);
    }
  }

  lemma {:induction false} PassedWatermark(db: Database, cycles: seq<Cycle>, cap: nat, h: int)
    requires db.watermark.Some? && db.watermark.value >= h
    ensures var w := Run(db, cycles, cap).watermark; w.Some? && w.value >= h
  {
    hide After, Database.Exact, Cycle.Writes;
    if cycles != [] {
      PassedWatermark(db, cycles[..|cycles| - 1], cap, h);
      CycleStep(Run(db, cycles[..|cycles| - 1], cap), cycles[|cycles| - 1], cap, h);
    }
  }
}
