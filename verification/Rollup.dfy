/** Hourly aggregates of raw readings and the watermark that says how far they
    reach (internal/store/rollup.go), as map updates. Times are microseconds, a
    bucket is a whole hour. A transaction either commits, aborts without a
    trace, or commits although the caller is told it failed. */
module Rollup {
  import opened Contents
  import History
  import opened Quality

  const HOUR := 3600000000

  function TruncateHour(t: int): int { t / HOUR }

  datatype Series = Series(sensor: int, metric: string)

  datatype RowKey = RowKey(series: Series, time: int)

  datatype Raw = Raw(value: real, flag: Flag) {
    /** Which flags may move a published number. */
    predicate Usable() { flag == FlagOK || flag == NoNeighbours }
  }

  datatype HourKey = HourKey(hour: int, series: Series)

  datatype Aggregate = Aggregate(avg: real, min: real, max: real, count: nat)

  type RawTable = map<RowKey, Raw>
  type HourTable = map<HourKey, Aggregate>

  // ---- aggregates ----

  /** A series' usable values with lo <= time < hi, by time. */
  ghost function UsableValues(raw: RawTable, s: Series, lo: int, hi: int): seq<real>
    decreases hi - lo
  {
    if hi <= lo then []
    else
      var k := RowKey(s, hi - 1);
      UsableValues(raw, s, lo, hi - 1) + if k in raw && raw[k].Usable() then [raw[k].value] else []
  }

  ghost function HourValues(raw: RawTable, s: Series, h: int): seq<real> {
    UsableValues(raw, s, h * HOUR, (h + 1) * HOUR)
  }

  function Total(vs: seq<real>): real {
    if vs == [] then 0.0 else Total(vs[..|vs| - 1]) + vs[|vs| - 1]
  }

  function AggregateOf(vs: seq<real>): Aggregate
    requires vs != []
  {
    Aggregate(Total(vs) / |vs| as real, History.Least(vs), History.Greatest(vs), |vs|)
  }

  /** The series with raw rows, usable or not. */
  ghost function Known(raw: RawTable): set<Series> { set k | k in raw :: k.series }

  ghost function Active(raw: RawTable, h: int): set<Series> {
    set s | s in Known(raw) && HourValues(raw, s, h) != []
  }

  /** Recomputing one hour: a row per group with a usable reading, replacing what
      was there; rows of groups without one are left alone. */
  ghost function RolledUp(hourly: HourTable, raw: RawTable, h: int): HourTable {
    map k | k in hourly.Keys + (set s | s in Active(raw, h) :: HourKey(h, s)) ::
      if k.hour == h && k.series in Active(raw, h) then AggregateOf(HourValues(raw, k.series, h)) else hourly[k]
  }

  datatype Database = Database(raw: RawTable, hourly: HourTable, watermark: Option<int>) {

    /** The hour's rows say exactly what its usable readings say, for every group
        that has one. */
    ghost predicate Exact(h: int) {
      forall s | HourValues(raw, s, h) != [] ::
        HourKey(h, s) in hourly && hourly[HourKey(h, s)] == AggregateOf(HourValues(raw, s, h))
    }

    /** One committed transaction: the hour's aggregates and, if it is later, the
        watermark. */
    ghost function Advanced(h: int): Database {
      Database(raw, RolledUp(hourly, raw, h), Some(if watermark.Some? && watermark.value >= h then watermark.value else h))
    }

    ghost function Written(rows: RawTable): Database { this.(raw := raw + rows) }

    /** The two databases agree on an hour's rows. */
    ghost predicate SameHour(other: Database, h: int) {
      forall s :: (HourKey(h, s) in hourly <==> HourKey(h, s) in other.hourly)
                  && (HourKey(h, s) in hourly ==> hourly[HourKey(h, s)] == other.hourly[HourKey(h, s)])
    }
  }

  lemma {:induction false} ValuesKnown(raw: RawTable, s: Series, lo: int, hi: int)
    ensures UsableValues(raw, s, lo, hi) != [] ==> s in Known(raw)
    decreases hi - lo
  {
    if lo < hi {
      ValuesKnown(raw, s, lo, hi - 1);
      var k := RowKey(s, hi - 1);
      if k in raw { assert k.series in Known(raw); }
    }
  }

  /** Rolling an hour up makes it exact and touches no other hour. */
  lemma AdvancedExact(db: Database, h: int)
    ensures db.Advanced(h).Exact(h)
    ensures forall other | other != h :: db.SameHour(db.Advanced(h), other)
  {
    hide HourValues;
    forall s | HourValues(db.raw, s, h) != [] ensures s in Active(db.raw, h) {
      HourKnown(db.raw, s, h);
    }
  }

  lemma HourKnown(raw: RawTable, s: Series, h: int)
    ensures HourValues(raw, s, h) != [] ==> s in Known(raw)
  {
    ValuesKnown(raw, s, h * HOUR, (h + 1) * HOUR);
  }

  // ---- one call ----

  datatype Tx = Committed | Aborted | Unacknowledged

  /** What the database does to one call: each transaction in turn, and whether
      the two reads of the watermark succeed. */
  datatype Faults = Faults(tx: nat -> Tx, firstRead: bool, lastRead: bool)

  /** applied counts the buckets whose transaction took effect, processed those
      the caller was told of. */
  datatype Drained = Drained(db: Database, processed: nat, applied: nat, failed: bool) {

    /** The same drain with n buckets before it. */
    function After(n: nat): Drained { this.(processed := processed + n, applied := applied + n) }
  }

  /** The capped loop from bucket through current. */
  ghost function Drain(db: Database, bucket: int, current: int, cap: nat, n: nat, tx: nat -> Tx): Drained
    decreases cap
  {
    if cap == 0 || bucket > current then Drained(db, 0, 0, false)
    else match tx(n)
      case Aborted => Drained(db, 0, 0, true)
      case Unacknowledged => Drained(db.Advanced(bucket), 0, 1, true)
      case Committed =>
        Drain(db.Advanced(bucket), bucket + 1, current, cap - 1, n + 1, tx).After(1)
  }

  lemma DrainTurn(db: Database, bucket: int, current: int, cap: nat, n: nat, tx: nat -> Tx)
    ensures var d := Drain(db, bucket, current, cap, n, tx);
            if cap == 0 || bucket > current then d == Drained(db, 0, 0, false)
            else match tx(n)
              case Aborted => d == Drained(db, 0, 0, true)
              case Unacknowledged => d == Drained(db.Advanced(bucket), 0, 1, true)
              case Committed =>
                d == Drain(db.Advanced(bucket), bucket + 1, current, cap - 1, n + 1, tx).After(1)
  {
  }

  datatype Outcome = Outcome(db: Database, processed: nat, watermark: Option<int>, failed: bool)

  /** Where the loop starts: just after the watermark, but never past the current
      hour; on a fresh database, at the current hour. */
  function StartOf(watermark: Option<int>, current: int): int {
    if watermark.Some? && watermark.value + 1 <= current then watermark.value + 1 else current
  }

  ghost function Backlog(db: Database, current: int, cap: nat, f: Faults): Outcome {
    if !f.firstRead then Outcome(db, 0, None, true)
    else
      var d := Drain(db, StartOf(db.watermark, current), current, cap, 0, f.tx);
      if d.failed then Outcome(d.db, d.processed, if f.lastRead then d.db.watermark else None, true)
      else if !f.lastRead then Outcome(d.db, d.processed, None, true)
      else if d.db.watermark.None? then Outcome(d.db, d.processed, None, false)
      else if d.db.watermark.value < current - 1 then Outcome(d.db, d.processed, d.db.watermark, false)
      else match f.tx(d.processed)
        case Committed => Outcome(d.db.Advanced(current - 1), d.processed, d.db.watermark, false)
        case Aborted => Outcome(d.db, d.processed, d.db.watermark, true)
        case Unacknowledged => Outcome(d.db.Advanced(current - 1), d.processed, d.db.watermark, true)
  }

  class Store {
    ghost var raw: RawTable
    ghost var hourly: HourTable
    var watermark: Option<int>

    ghost function Contents(): Database
      reads this
    {
      Database(raw, hourly, watermark)
    }

    /** Both writes in one transaction; ok is what the caller is told. */
    method RollupAndAdvance(h: int, tx: Tx) returns (ok: bool)
      modifies this
      ensures ok == (tx == Committed)
      ensures Contents() == if tx == Aborted then old(Contents()) else old(Contents()).Advanced(h)
    {
      if tx != Aborted {
        hourly := RolledUp(hourly, raw, h);
        if watermark.None? || h > watermark.value {
          watermark := Some(h);
        }
      }
      ok := tx == Committed;
    }

    method RollupBacklog(now: int, maxBuckets: nat, f: Faults) returns (processed: nat, reported: Option<int>, failed: bool)
      modifies this
      ensures Outcome(Contents(), processed, reported, failed) == Backlog(old(Contents()), TruncateHour(now), maxBuckets, f)
    {
      hide Database.Advanced, Drain;
      var current := TruncateHour(now);
      processed := 0;
      if !f.firstRead {
        return 0, None, true;
      }
      var start := current;
      if watermark.Some? {
        start := watermark.value + 1;
        if start > current {
          start := current;
        }
      }
      ghost var whole := Drain(Contents(), start, current, maxBuckets, 0, f.tx);
      var bucket := start;
      while processed < maxBuckets && bucket <= current
        invariant processed <= maxBuckets
        invariant whole == Drain(Contents(), bucket, current, maxBuckets - processed, processed, f.tx).After(processed)
        decreases maxBuckets - processed
      {
        DrainTurn(Contents(), bucket, current, maxBuckets - processed, processed, f.tx);
        var ok := RollupAndAdvance(bucket, f.tx(processed));
        if !ok {
          return processed, if f.lastRead then watermark else None, true;
        }
        processed := processed + 1;
        bucket := bucket + 1;
      }
      DrainTurn(Contents(), bucket, current, maxBuckets - processed, processed, f.tx);
      if !f.lastRead {
        return processed, None, true;
      }
      reported := watermark;
      if reported.None? {
        return processed, None, false;
      }
      var previousHour := current - 1;
      if reported.value >= previousHour {
        var ok := RollupAndAdvance(previousHour, f.tx(processed));
        if !ok {
          return processed, reported, true;
        }
      }
      failed := false;
    }
  }

  // ---- what a call does ----

  function Least(a: int, b: int): int { if a < b then a else b }

  lemma {:induction false} DrainFacts(db: Database, bucket: int, current: int, cap: nat, n: nat, tx: nat -> Tx)
    ensures var d := Drain(db, bucket, current, cap, n, tx);
            && d.db.raw == db.raw
            && d.processed <= d.applied <= cap && bucket + d.applied <= (if current < bucket then bucket else current + 1)
            && (forall h | bucket <= h < bucket + d.applied :: d.db.Exact(h))
            && (forall h | h < bucket || bucket + d.applied <= h :: db.SameHour(d.db, h))
            && d.db.watermark == (if d.applied == 0 then db.watermark
                                  else Some(if db.watermark.Some? && db.watermark.value >= bucket + d.applied - 1
                                            then db.watermark.value else bucket + d.applied - 1))
            && (d.failed || d.applied == d.processed == (if current < bucket then 0 else Least(cap, current + 1 - bucket)))
            && ((forall i | n <= i < n + cap :: tx(i) == Committed) ==> !d.failed)
    decreases cap
  {
    hide RolledUp, Database.Exact, Database.SameHour;
    if cap > 0 && bucket <= current && tx(n) != Aborted {
      AdvancedExact(db, bucket);
      var next := db.Advanced(bucket);
      if tx(n) == Committed {
        DrainFacts(next, bucket + 1, current, cap - 1, n + 1, tx);
        var d := Drain(next, bucket + 1, current, cap - 1, n + 1, tx);
        forall h | h < bucket || bucket + 1 + d.applied <= h ensures db.SameHour(d.db, h) {
          SameHourTransitive(db, next, d.db, h);
        }
        ExactStays(next, d.db, bucket);
      }
    } else {
      forall h ensures db.SameHour(db, h) { SameHourReflexive(db, h); }
    }
    forall h ensures db.SameHour(db, h) { SameHourReflexive(db, h); }
  }

  lemma SameHourTransitive(a: Database, b: Database, c: Database, h: int)
    ensures a.SameHour(b, h) && b.SameHour(c, h) ==> a.SameHour(c, h)
  {
  }

  lemma SameHourReflexive(a: Database, h: int)
    ensures a.SameHour(a, h)
  {
  }

  lemma ExactStays(a: Database, b: Database, h: int)
    requires a.raw == b.raw && a.SameHour(b, h) && a.Exact(h)
    ensures b.Exact(h)
  {
  }
}
