/** Why a flagged reading cannot move a published average: whole runs that differ
    only in what their unusable readings say build the same hourly table. */
module FlaggedReadings {
  import opened Quality
  import opened Rollup
  import opened RollupRuns
  import Window

  /** The same readings are usable, with the same values; the others may say
      anything. */
  ghost predicate SameUsable(a: RawTable, b: RawTable) {
    && a.Keys == b.Keys
    && forall k | k in a :: a[k].Usable() == b[k].Usable() && (a[k].Usable() ==> a[k].value == b[k].value)
  }

  ghost predicate SamePublished(a: Database, b: Database) {
    SameUsable(a.raw, b.raw) && a.hourly == b.hourly && a.watermark == b.watermark
  }

  lemma {:induction false} SameValues(a: RawTable, b: RawTable, s: Series, lo: int, hi: int)
    requires SameUsable(a, b)
    ensures UsableValues(a, s, lo, hi) == UsableValues(b, s, lo, hi)
    decreases hi - lo
  {
    if lo < hi {
      SameValues(a, b, s, lo, hi - 1);
    }
  }

  lemma SameRollup(a: Database, b: Database, h: int)
    requires SamePublished(a, b)
    ensures SamePublished(a.Advanced(h), b.Advanced(h))
  {
    hide UsableValues;
    forall s ensures HourValues(a.raw, s, h) == HourValues(b.raw, s, h) {
      SameValues(a.raw, b.raw, s, h * HOUR, (h + 1) * HOUR);
    }
    hide HourValues, AggregateOf, SameUsable;
    forall s ensures s in Active(a.raw, h) <==> s in Active(b.raw, h) {
      HourKnown(a.raw, s, h);
      HourKnown(b.raw, s, h);
    }
    assert Active(a.raw, h) == Active(b.raw, h);
    assert RolledUp(a.hourly, a.raw, h) == RolledUp(b.hourly, b.raw, h);
  }

  lemma {:induction false} SameDrain(a: Database, b: Database, bucket: int, current: int, cap: nat, n: nat, tx: nat -> Tx)
    requires SamePublished(a, b)
    ensures var x, y := Drain(a, bucket, current, cap, n, tx), Drain(b, bucket, current, cap, n, tx);
            SamePublished(x.db, y.db) && x.processed == y.processed && x.failed == y.failed
    decreases cap
  {
    hide SamePublished, Database.Advanced;
    if cap > 0 && bucket <= current {
      SameRollup(a, b, bucket);
      SameDrain(a.Advanced(bucket), b.Advanced(bucket), bucket + 1, current, cap - 1, n + 1, tx);
    }
  }

  lemma SameCall(a: Database, b: Database, current: int, cap: nat, f: Faults)
    requires SamePublished(a, b)
    ensures var x, y := Backlog(a, current, cap, f), Backlog(b, current, cap, f);
            SamePublished(x.db, y.db) && x.processed == y.processed && x.watermark == y.watermark && x.failed == y.failed
  {
    hide SameUsable, Database.Advanced;
    var lo := StartOf(a.watermark, current);
    SameDrain(a, b, lo, current, cap, 0, f.tx);
    SameRollup(Drain(a, lo, current, cap, 0, f.tx).db, Drain(b, lo, current, cap, 0, f.tx).db, current - 1);
  }

  /** Two runs in step, alike but for their unusable readings. */
  ghost predicate Alike(a: seq<Cycle>, b: seq<Cycle>) {
    && |a| == |b|
    && forall i | 0 <= i < |a| :: SameUsable(a[i].rows, b[i].rows) && a[i].hour == b[i].hour && a[i].faults == b[i].faults
  }

  /** Flagged readings never reach an hourly row, whatever they say, whatever
      they replace and whatever fails. */
  lemma {:induction false} FlaggedReadingsMoveNothing(x: Database, y: Database, a: seq<Cycle>, b: seq<Cycle>, cap: nat)
    requires SamePublished(x, y) && Alike(a, b)
    ensures SamePublished(Run(x, a, cap), Run(y, b, cap))
    decreases |a|
  {
    hide Backlog;
    if a != [] {
      var n := |a| - 1;
      FlaggedReadingsMoveNothing(x, y, a[..n], b[..n], cap);
      var before, other := Run(x, a[..n], cap), Run(y, b[..n], cap);
      SameCall(before.Written(a[n].rows), other.Written(b[n].rows), a[n].hour, cap, a[n].faults);
    }
  }

  /** Rolling an hour up again changes nothing, and the order in which hours are
      rolled up does not matter. */
  lemma RollupIsIdempotent(db: Database, h: int, other: int)
    ensures db.Advanced(h).Advanced(h) == db.Advanced(h)
    ensures db.Advanced(h).Advanced(other) == db.Advanced(other).Advanced(h)
  {
    hide HourValues, AggregateOf;
    assert RolledUp(RolledUp(db.hourly, db.raw, h), db.raw, h) == RolledUp(db.hourly, db.raw, h);
    assert RolledUp(RolledUp(db.hourly, db.raw, h), db.raw, other) == RolledUp(RolledUp(db.hourly, db.raw, other), db.raw, h);
  }

  // ---- the flags themselves ----

  /** The same rows, but for what readings with a discarded flag say. */
  ghost predicate AlikeButFlagged(a: RawTable, b: RawTable) {
    && a.Keys == b.Keys
    && forall k | k in a ::
         || a[k] == b[k]
         || (a[k].flag in {Clamped, OutOfRange, Stuck, SpatialOutlier} && b[k].flag in {Clamped, OutOfRange, Stuck, SpatialOutlier})
  }

  /** Clamped, out-of-range, stuck and outlying readings never reach an hourly row:
      two runs that differ only in those build the same table and watermark, whatever
      fails. */
  lemma DiscardedFlagsMoveNothing(x: Database, y: Database, a: seq<Cycle>, b: seq<Cycle>, cap: nat)
    requires AlikeButFlagged(x.raw, y.raw) && x.hourly == y.hourly && x.watermark == y.watermark && |a| == |b|
    requires forall i | 0 <= i < |a| ::
      AlikeButFlagged(a[i].rows, b[i].rows) && a[i].hour == b[i].hour && a[i].faults == b[i].faults
    ensures var p, q := Run(x, a, cap), Run(y, b, cap); p.hourly == q.hourly && p.watermark == q.watermark
  {
    FlaggedReadingsMoveNothing(x, y, a, b, cap);
  }

  /** When a series' readings of an hour that are flagged ok or as having no
      neighbours were taken. */
  ghost function CountedTimes(raw: RawTable, s: Series, lo: int, hi: int): set<int> {
    set t | lo <= t < hi && RowKey(s, t) in raw && raw[RowKey(s, t)].flag in {FlagOK, NoNeighbours}
  }

  lemma {:induction false} ValuesAreCounted(raw: RawTable, s: Series, lo: int, hi: int)
    ensures var vs, at := UsableValues(raw, s, lo, hi), CountedTimes(raw, s, lo, hi);
            && |vs| == |at|
            && (forall t | t in at :: raw[RowKey(s, t)].value in vs)
            && (forall v | v in vs :: exists t | t in at :: raw[RowKey(s, t)].value == v)
    decreases hi - lo
  {
    if lo < hi {
      ValuesAreCounted(raw, s, lo, hi - 1);
      var before, at, k := CountedTimes(raw, s, lo, hi - 1), CountedTimes(raw, s, lo, hi), RowKey(s, hi - 1);
      assert at == before + if k in raw && raw[k].flag in {FlagOK, NoNeighbours} then {hi - 1} else {};
      var vs, front := UsableValues(raw, s, lo, hi), UsableValues(raw, s, lo, hi - 1);
      assert vs == front + if k in raw && raw[k].flag in {FlagOK, NoNeighbours} then [raw[k].value] else [];
      forall v | v in vs ensures exists t | t in at :: raw[RowKey(s, t)].value == v {
        if v in front {
          var t :| t in before && raw[RowKey(s, t)].value == v;
        } else {
          assert hi - 1 in at;
        }
      }
    } else {
      assert CountedTimes(raw, s, lo, hi) == {};
    }
  }

  /** After an hour is rolled up, the row of each series counts its readings of that
      hour that are flagged ok or as having no neighbours, no others, and its extremes
      are theirs; a series without one is left as it was. */
  lemma RowCountsReadings(db: Database, s: Series, h: int)
    ensures var at, k := CountedTimes(db.raw, s, h * HOUR, (h + 1) * HOUR), HourKey(h, s);
            var after := db.Advanced(h).hourly;
            if at == {} then
              (k in after <==> k in db.hourly) && (k in after ==> after[k] == db.hourly[k])
            else
              && k in after && after[k].count == |at|
              && (forall t | t in at :: after[k].min <= db.raw[RowKey(s, t)].value <= after[k].max)
              && (exists t | t in at :: db.raw[RowKey(s, t)].value == after[k].min)
              && (exists t | t in at :: db.raw[RowKey(s, t)].value == after[k].max)
  {
    hide CountedTimes, UsableValues;
    var at, vs := CountedTimes(db.raw, s, h * HOUR, (h + 1) * HOUR), HourValues(db.raw, s, h);
    ValuesAreCounted(db.raw, s, h * HOUR, (h + 1) * HOUR);
    assert vs == [] <==> at == {};
    RowOfHour(db, s, h);
    if vs != [] {
      Window.ExtremesWithin(vs);
    }
  }

  lemma RowOfHour(db: Database, s: Series, h: int)
    ensures var vs, k, after := HourValues(db.raw, s, h), HourKey(h, s), db.Advanced(h).hourly;
            if vs == [] then (k in after <==> k in db.hourly) && (k in after ==> after[k] == db.hourly[k])
            else k in after && after[k] == AggregateOf(vs)
  {
    hide HourValues, AggregateOf;
    AdvancedExact(db, h);
  }
}
