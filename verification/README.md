# airbg verification

A Dafny model of the state and arithmetic behind airbg, an air-quality map: how
sensors become a hexagonal grid and a point tier, how viewport answers are
indexed and memoised, how a week of hours is carried between builds for the
animation, how raw readings are rolled up behind a watermark, how requests are
limited and admitted, and how readings are judged plausible. The program is Go
and SQL; each module says which file it models.

Floats are exact reals. The square root of 3 and the two projection scales are
constants of a `Grid`; hours are whole numbers (microseconds where raw rows are
concerned), other times are real seconds. Encoding (JSON, gzip, SHA-256), tier
snapping, great-circle distance and the shard hash are unknown deterministic
functions. The database is a set of maps; each of its transactions commits,
aborts, or commits although the caller is told it failed.

Code that loops or updates state is a method or a class whose contract ties the
new state to a specification function; what the program promises is then proved
about those functions, over all inputs, all runs or all interleavings.

| file | models |
|---|---|
| `HexGrid.dfy` | the lattice: projection, cube rounding, centres |
| `HexBins.dfy`, `HexBuild.dfy` | what a bin's entry says, and the loops that build it |
| `Stations.dfy`, `Views.dfy` | the three station groupings, and what the views agree on |
| `Published.dfy` | what points and bins publish, said of the sensors alone |
| `BBoxIndex.dfy`, `BodyCache.dfy` | viewport clipping and the memo of encoded answers |
| `Timelapse.dfy`, `Frames.dfy`, `Animation.dfy` | the carried ring of hours, its frames, and what they show of the rows |
| `Rollup.dfy`, `RollupRuns.dfy`, `FlaggedReadings.dfy` | the roll-up and its watermark |
| `Ingest.dfy`, `Window.dfy` | the cycle around it, and the windowed mean on top of it |
| `TokenBucket.dfy`, `Eviction.dfy`, `Breadth.dfy`, `Admission.dfy` | request limits and gates |
| `History.dfy`, `Quality.dfy`, `Verdicts.dfy`, `Statistics.dfy` | scoring, what the flags mean, and the statistics they rest on |
| `Sorting.dfy`, `Contents.dfy`, `Orders.dfy`, `Wire.dfy` | what the others share |

Where the code and its words part:

- `internal/quality/history.go:78-79` calls a stuck series exactly equal; the
  code allows a spread of 1e-9, and so does the model. `AcceptedUnequal` says
  when that shows, `StuckWithoutEquality` gives inputs for which it does.
- `internal/snapshot/timelapse.go:85-86` says a past hour's rollup does not
  change, but a roll-up call redoes the previous hour whenever no backlog is left.
  `RingIsFreshExactly` says exactly when the carried ring is right,
  `LateReadingIsMissed` gives a history for which it is not.
- `internal/snapshot/hexes.go:513-515` calls the point tier a function of the
  readings alone, but a station's country is its first member's.
  `PointsOfReadingsAlone` says exactly when that shows, `CountryFollowsOrder` gives
  two sensors for which it does.
- `internal/snapshot/hexes.go:311-313` relies on the parser for keys not to
  collide. `KeysShared` says exactly which questions share a key;
  `ZeroBoxSeesWholeTier` shows a direct caller noticing.
- The idle sweep of `internal/ratelimit/bucket.go` is unobservable only if a
  bucket fills within the idle time. `internal/config/validate.go:213-229` does
  not require that; `Eviction.EvictionUnobservable` shows it is exactly what is
  needed.
- `internal/store/rollup.go:204-216` redoes the previous hour so that late
  readings are not lost. `LateReadingIsRolledUpOrLost` says exactly when one is,
  `FailedRedoIsFinal` that a single failed redo is enough.
- `internal/ratelimit/bucket.go:102-105` promises a truthful Retry-After. The wait
  is rounded to the nearest second, and its callers send at least one
  (`internal/httpx/chain.go:72-76`, `internal/api/series.go:291-295`).
  `HeaderHonestExactly` shows that this is long enough for every refusal if and only
  if the bucket earns a token a second or more, as the shipped ones do
  (`airbg.yaml:124-142`); `SlowFallsShort` gives the refusal it fails for otherwise.
- `internal/store/window.go:21-22` promises the mean of the underlying readings.
  That holds unless a row outlived its readings, which the upsert never removes:
  `SumsOfReadings` gives the equivalence, `RetractedReadingStaysPublished` what
  is published otherwise, `RetractedFromNothing` a run that gets there.

## Model

| member | source | states |
|---|---|---|
| HexGrid.HexOfNearest | internal/snapshot/hexes.go:839-876 | For every point and resolution the cell chosen by cube rounding has an unrounded centre no farther from the projected point than that of any other cell, and within one circumradius |
| HexGrid.CentreRoundTrip | internal/snapshot/hexes.go:833-854 | Binning a cell's own centre gives the cell back, for every cell and resolution |
| HexGrid.CellIsVoronoi | internal/snapshot/hexes.go:856-861 | The hexagon of the three cube inequalities is where the origin is a nearest lattice point, against every lattice vector |
| HexGrid.CubeRoundInCell | internal/snapshot/hexes.go:862-876 | Discarding the component that moved furthest always lands in that hexagon |
| HexGrid.CentresApart | internal/snapshot/hexes.go:817-822 | On every tier two cells' centres are as far apart as the resolution times the length of the lattice step between them, and |
| HexGrid.NeighboursApart | internal/snapshot/hexes.go:817-822 | in particular each of the six neighbours of any cell exactly the resolution away |
| HexGrid.CentresRun | internal/snapshot/hexes.go:849-854 | Cell (0, 0) is centred on the origin, columns run east by the resolution, rows north and half a step east |
| HexGrid.CellOfPosition | internal/snapshot/hexes.go:824-876 | In degrees, no other published centre is nearer to the sensor than its cell's, which is at most the resolution over the root of three away |
| Wire.QuantiseWidens | internal/snapshot/hexes.go:604-621 | Quantising never narrows, widens each edge by less than a quantum, and is idempotent |
| BBoxIndex.BuildIndex | internal/snapshot/hexes.go:181-196 | Every bucket lists the ascending positions of exactly its entries, and the column and row bounds hold |
| BBoxIndex.ClipLinear | internal/snapshot/hexes.go:203-211 | The entries inside the box, in their original order |
| BBoxIndex.Clip | internal/snapshot/hexes.go:213-264 | For any box, on the grid or off it, inverted or not, the indexed walk returns exactly the sequence of the linear one, no entry twice |
| BBoxIndex.InteriorInside | internal/snapshot/hexes.go:215-223 | A bucket strictly between the edge buckets lies wholly in the box, so its entries need no re-check |
| BBoxIndex.SortedPositions | internal/snapshot/hexes.go:258-263 | Sorted positions of exactly the entries inside read out the linear clip |
| BBoxIndex.ClipIsFilter | internal/snapshot/hexes.go:203-264 | The entries answered are those whose longitude and latitude lie between the box's edges, edges included, in their original order |
| BodyCache.Memo.PutBounded | internal/snapshot/hexes.go:367-392 | Every put keeps the byte counter equal to the sum of the stored sizes, at most 32 MiB, with at most 256 entries |
| BodyCache.Memo.PutStores | internal/snapshot/hexes.go:367-392 | A body that fits is held from then on, together with everything held before while there is room for all; one larger than the budget changes nothing |
| BodyCache.Cache.Put | internal/snapshot/hexes.go:367-392 | The stored map and counter become those of the specification: oversized bodies are ignored, an overflow clears everything first |
| BodyCache.Content.KeysShared | internal/snapshot/hexes.go:308-318 | Two questions share a key if and only if they are the same question, or one is unclipped and the other clipped to the zero box |
| BodyCache.Content.AnswerSays | internal/snapshot/hexes.go:402-496 | What the unmemoised answer to every question encodes: the prebuilt body, a whole tier, the tier's entries inside the box, or the points inside the box |
| BodyCache.Content.AnyInterleaving | internal/snapshot/hexes.go:334-347 | After any sequence of stores, as interleaved callers may leave it, every hit is the unmemoised answer and both bounds hold |
| BodyCache.ParsedIsAskable | internal/snapshot/hexes.go:593-598 | A box with west left of east is never the one that stands for no clip, before and after quantising |
| BodyCache.ZeroBoxSeesWholeTier | internal/snapshot/hexes.go:311-313 | Without that, the memo answers a clipped question with the whole tier |
| BodyCache.Snapshot.HexBody | internal/snapshot/hexes.go:402-444 | The answer equals the unmemoised encode of the tier, clipped or not, errors included, unless some call clipped to the zero box; then it may be the answer to the one question it clashes with, and never anything else |
| BodyCache.Snapshot.PointBody | internal/snapshot/hexes.go:477-496 | The answer equals the unmemoised encode of the clipped point tier, whatever the other calls asked |
| HexBins.PayloadOfReadingsAlone | internal/snapshot/hexes.go:746-754 | Two payloads built from rearrangements of the same sensors are identical: counts, medians, sources, countries with their tie-break, station ids and order |
| HexBins.SummaryByContents | internal/snapshot/hexes.go:761-812 | One bin's entry is determined by the multiset of its sensors |
| HexBins.ModalUnique | internal/snapshot/hexes.go:676-690 | Most common country with ties to the smallest code names one code, whatever the order |
| HexBuild.ModalCountry | internal/snapshot/hexes.go:679-690 | Ranging over the counts in any order finds that code, or the unknown one if no sensor names a country |
| HexBuild.AddSensor | internal/snapshot/hexes.go:700-740 | One turn of the loop: the bin that held the sensors so far holds one more, in every field |
| HexBuild.HexPayload | internal/snapshot/hexes.go:698-815 | The loops produce, for every occupied cell in strict (q, r) order and for no other, the entry its sensors determine, with an index over the list |
| Published.GridIsTheCells | internal/snapshot/hexes.go:699-757 | The grid has one bin for each cell some sensor lies in and no other, strictly by column and then row |
| Published.BinSays | internal/snapshot/hexes.go:761-777 | A bin is placed at its cell's centre to half a ten-thousandth of a degree, counts the sensors in the cell, has a metric if and only if one of them reports it and it is canonical, and while more than half of the readings lie in [lo, hi] publishes a value in [lo - 0.05, hi + 0.05] |
| Published.BinNetworks | internal/snapshot/hexes.go:795-810 | A bin of one network names it; a mixed one names none and gives, for each network in the cell and no other, its count and its own values, said the same way |
| Published.BinCountry | internal/snapshot/hexes.go:676-690 | The country is the one most of the bin's sensors name, the first in the alphabet among equals, and ?? if none is named |
| Published.LexByFirstDifference | internal/snapshot/hexes.go:676-690 | That alphabet: a proper prefix first, otherwise by the first character that differs |
| Published.BinIds | internal/snapshot/hexes.go:778-794 | A bin carries the smallest id if and only if all its devices stand at one site, and a metric the smallest id of a site, reporting or not, if and only if all its reporters stand at that one |
| Statistics.MedianByContents | internal/snapshot/hexes.go:881-903 | A median depends on the multiset of values only |
| Stations.StationIDs | internal/snapshot/build.go:562-575 | Each sensor gets the smallest id of all members of its station, in input order |
| Published.CatalogueIds | internal/snapshot/build.go:562-575 | That id is the least of all the devices at the sensor's position and on its network |
| Stations.PointsFrom | internal/snapshot/hexes.go:518-569 | One entry per station, ordered by id, with its position, smallest id, device count, first member's country and the medians of its canonical metrics |
| Published.PointsAreThePlaces | internal/snapshot/hexes.go:518-569 | Each sensor has exactly one point, at its own position and of its own network, each point is some sensor's, and points come in the order of their ids |
| Published.PointSays | internal/snapshot/hexes.go:541-566 | A point counts the devices standing there, carries the smallest of their ids, has a metric if and only if one of them reports it and it is canonical, and while more than half of those readings lie in [lo, hi] publishes a value in [lo - 0.05, hi + 0.05] |
| Published.PointCountry | internal/snapshot/hexes.go:529-539 | A point's country is that of the first device standing there, or ?? |
| Views.GridCountsEverySensor | internal/snapshot/hexes.go:698-815 | On every tier the device counts add up to the number of sensors |
| Views.PointsCountEverySensor | internal/snapshot/hexes.go:517-569 | So they do on the point tier |
| Views.SourcesCountEveryDevice | internal/snapshot/hexes.go:795-810 | In a bin fed by several networks their counts add up to the bin's |
| Views.StationInOneCell | internal/snapshot/hexes.go:711-716 | A cell holds all members of a station or none |
| Views.OneStationOneId | internal/snapshot/hexes.go:778-781 | A one-station bin is published under the id that the point tier and the catalogue give the station |
| Views.OneReporterOneId | internal/snapshot/hexes.go:782-794 | So is a metric only one station of the bin reports |
| Views.PointsOfReadingsAlone | internal/snapshot/hexes.go:513-540 | With no id at two stations, rearranging the sensors leaves the published list and its order the same up to countries, and the same altogether if and only if every station's first members name the same country |
| Views.CountryFollowsOrder | internal/snapshot/hexes.go:530-540 | Two devices of one station whose countries differ: the entry's country is that of the one listed first |
| Timelapse.FoldHours | internal/snapshot/timelapse.go:201-238 | Rows in any order fold into one reduction per hour that has readings, oldest first, each cell the median of its own values at every tier |
| Timelapse.HourByContents | internal/snapshot/timelapse.go:201-238 | An hour's reduction depends on the multiset of its rows only |
| Timelapse.ExtendRing | internal/snapshot/timelapse.go:174-199 | Drops what left the span, reads exactly from after the last kept hour, passes a read error on |
| Timelapse.ExtendRingMeets | internal/snapshot/timelapse.go:174-199 | The extended ring is the specified one whatever order the store answers in |
| Timelapse.ExtendExact | internal/snapshot/timelapse.go:174-199 | A carried ring extended to a later end equals the whole window read afresh if and only if every hour it kept, quiet ones included, still reduces to what it did |
| Timelapse.RingTells | internal/snapshot/timelapse.go:75-89 | Two rings are equal if and only if every hour reduces alike |
| Timelapse.RingIsLastRead | internal/snapshot/timelapse.go:140-199 | Over any run of builds with any clock, the carried ring is one stretch of hours, each as the last build that read it found it, already past |
| Timelapse.RingIsFreshExactly | internal/snapshot/timelapse.go:140-199 | With any clock, that ring is the whole week read afresh if and only if every hour reduces alike in what it shows and in that week; when ends never step back, if and only if every hour of the week still reduces to what the last build that read it found |
| Timelapse.RingIsFresh | internal/snapshot/timelapse.go:85-89 | So with a past that does not change it is always the whole week, quiet hours and gaps longer than the week included |
| Timelapse.LateReadingIsMissed | internal/snapshot/timelapse.go:85-89 | A reading that reaches an hour after a build found it past is missing from the carried ring |
| Frames.TimelapseFrom | internal/snapshot/timelapse.go:240-310 | One sorted cell list, and per step one positional value or null for each cell of it |
| Frames.FramesPartition | internal/snapshot/timelapse.go:243-251 | Each hour of the span falls in exactly one frame, the one whose interval contains it |
| Frames.SpecsTile | internal/snapshot/timelapse.go:24-28 | Every published step divides its span, and no span exceeds the ring |
| Frames.ValueOrNull | internal/snapshot/timelapse.go:287-299 | An entry is non-null if and only if some hour of that step has the cell, and is then the rounded median of those hours |
| Frames.HourIsShown | internal/snapshot/timelapse.go:247-268 | Every hour in the span contributes each of its cells to the frame it falls in |
| Frames.ListedCellsAreShown | internal/snapshot/timelapse.go:262-299 | A listed cell is non-null in some frame if and only if some hour of the span has it, so every one is when the ring holds no hour at or past the end |
| Frames.CellsStrictlySorted | internal/snapshot/timelapse.go:273-285 | The cell list is strictly sorted by coordinate, one index per cell |
| Animation.EntryOfRows | internal/snapshot/timelapse.go:201-310 | Over a ring folded from rollup rows, an entry is a value if and only if some row of its step lies in its cell at the requested tier, and is then within a twentieth of the range of those rows' values; with one such row, of that row's |
| Animation.CellsOfRows | internal/snapshot/timelapse.go:262-285 | The cells listed are exactly those that rows since the start of the span lie in, shown at their centres to half a ten-thousandth of a degree |
| Rollup.AdvancedExact | internal/store/rollup.go:14-25 | Rolling an hour up makes it exact for every group with a usable reading and touches no other hour |
| Rollup.Store.RollupAndAdvance | internal/store/rollup.go:118-136 | Aggregates and watermark change together or not at all, the watermark only forward |
| Rollup.Store.RollupBacklog | internal/store/rollup.go:217-292 | The loop, the read-back and the redo of the previous hour, under any failures, leave the state, count and watermark of the specification |
| Rollup.DrainFacts | internal/store/rollup.go:237-250 | The drained hours are consecutive from the start, exact, capped, and the only ones touched; the watermark ends at the last of them or where it was beyond |
| RollupRuns.WatermarkMovesOverExactHours | internal/store/rollup.go:27-39 | Whatever fails, the watermark never moves back, never passes the current hour, and every hour it moves over was rolled up by that call |
| RollupRuns.ReportIsHonest | internal/store/rollup.go:192-196 | The reported watermark is the stored one whenever it could be read, failed call or not, and never anything else |
| RollupRuns.FailureKeepsWhatCommitted | internal/store/rollup.go:237-240 | A failure at the i-th bucket of any call, on a fresh or caught-up database too, ends it with exactly the first i hours done and counted, the rest untouched, and the stored watermark reported |
| RollupRuns.FailedRedoKeepsTheDrain | internal/store/rollup.go:264-273 | A failing redo keeps and counts the whole drain, reports the stored watermark, and leaves only the previous hour in question |
| RollupRuns.CallExact | internal/store/rollup.go:217-276 | After a call under any failures an hour is exact if and only if the call rolled it up or it was exact before; which hours it rolls up follows from the watermark, the cap and the failures alone |
| RollupRuns.CleanCallAdvances | internal/store/rollup.go:184-190 | A failure-free call advances the watermark by exactly the smaller of the gap and the cap |
| RollupRuns.DrainedAfter | internal/ingest/ingest.go:22-30 | k failure-free calls in one hour advance it by the smaller of the gap and k caps, and so drain it if and only if k caps cover the gap |
| RollupRuns.ExactSinceLastWrite | internal/store/rollup.go:204-216 | Over any run, an hour ends exact if and only if some cycle from its last write on rolled it up, or that write left it exact |
| RollupRuns.SettledHoursAreExact | internal/store/rollup.go:204-216 | In particular, over any run from a fresh database every hour from the bootstrap hour through the watermark is exact if each write to it was in, or was followed by, a failure-free cycle of that hour or the next |
| RollupRuns.CleanRunIsExact | internal/store/rollup.go:204-216 | Failure-free cycles that write only to their own hour and the one before keep every hour from the bootstrap hour through the watermark exact, also when the clock steps back |
| RollupRuns.SpoiledByItsOwnFailures | internal/store/rollup.go:237-273 | Over any run of timely cycles with any failures, an hour from the bootstrap hour through the watermark that is not exact was written by a failing cycle of that hour or the next |
| RollupRuns.FailureSpoilsAtMostTwoHours | internal/store/rollup.go:237-273 | So a single failing cycle anywhere in a run leaves at most its own hour and the one before inexact |
| RollupRuns.OnlyItsOwnCyclesRepair | internal/store/rollup.go:207-216 | An hour the watermark has passed stays exact, or inexact, through any run without a cycle in that hour or the next and without writes to it |
| RollupRuns.LateReadingIsRolledUpOrLost | internal/store/rollup.go:204-216 | A late reading, of a series with a row in its hour or without, reaches the hourly table if and only if its own or a later cycle rolls the hour up |
| RollupRuns.FailedRedoIsFinal | internal/store/rollup.go:264-273 | So once the watermark has passed its hour, a cycle of the next hour whose redo does not take effect, for any reason, loses it for as long as only later hours follow |
| FlaggedReadings.FlaggedReadingsMoveNothing | internal/store/rollup.go:41-46 | Two runs that differ only in what their unusable readings say build the same hourly table and watermark, whatever fails |
| FlaggedReadings.DiscardedFlagsMoveNothing | internal/store/aggregate.go:15-19 | With the flags written out: two runs alike but for what readings flagged clamped, out of range, stuck or outlying say end with the same hourly table and watermark, whatever fails |
| FlaggedReadings.RowCountsReadings | internal/store/rollup.go:14-25 | After an hour is rolled up, a series' row counts its readings of that hour flagged ok or without neighbours and no others, and its extremes are theirs; with none, it is left as it was |
| FlaggedReadings.RollupIsIdempotent | internal/store/rollup.go:45-46 | Rolling an hour up again changes nothing, and hours may be rolled up in any order |
| Ingest.RejectReservedIDs | internal/ingest/ingest.go:82-96 | The in-place compaction leaves the keepers at the front in order and counts the rest |
| Ingest.KeepersAreCommunity | internal/ingest/ingest.go:82-96 | Exactly the readings below the reserved range are kept |
| Ingest.WriteReadings | internal/store/store.go:85-112 | The raw table after an upsert that got n readings far |
| Ingest.RunOnce | internal/ingest/ingest.go:274-313 | A cycle is: score what was accepted, drop reserved ids, write as far as the write gets, then one capped roll-up call, also when nothing was fetched, accepted or written; the alert judges what that call reported |
| Ingest.CycleWrites | internal/ingest/ingest.go:274-298 | The rows a cycle writes: of the community readings as far as the write got, which are as many as it wrote, the last one for each sensor, metric and time, with its value and the flag it is scored with in the whole batch |
| Ingest.NothingWritten | internal/ingest/ingest.go:218-238 | A cycle whose fetch, filter or upsert fails writes no row |
| Ingest.AlertJudgesTheTrueGap | internal/ingest/ingest.go:371-402 | The alert is raised if and only if the stored watermark is a week behind, whenever it can be read, failed roll-up or not |
| Ingest.StalledRollupStillAlerts | internal/ingest/ingest.go:375-384 | A roll-up that can commit nothing does not silence the alert |
| Ingest.CleanCycleAlerts | internal/ingest/ingest.go:385-399 | A failure-free cycle alerts if and only if the gap before it was a day more than the threshold |
| Window.WindowIsPlainMean | internal/store/window.go:18-30 | Given exact rows, the weighted mean equals the plain mean of all usable readings of the covered hours, and is absent exactly when there are none |
| Window.SumsOfReadings | internal/store/window.go:24-30 | The rows carry the readings' count and total if and only if no row of the window outlived its readings |
| Window.WindowWithinExtremes | internal/store/window.go:24-30 | The windowed value lies between the smallest hourly minimum and the largest hourly maximum, and exists if and only if the window has a row |
| Window.AggregateSound | internal/store/rollup.go:14-25 | An hour's mean lies between its own minimum and maximum, and times its count is its total |
| Window.RunPublishesPlainMean | internal/store/window.go:18-30 | After any failure-free run of timely cycles that takes no usable reading back, every window since the bootstrap hour publishes the plain mean of its usable readings |
| Window.RetractedReadingStaysPublished | internal/store/rollup.go:21-25 | A row whose last usable reading is taken back keeps being published, whatever cycles follow, until the hour has a usable reading again |
| Window.RetractedFromNothing | internal/store/rollup.go:21-25 | A run from an empty database that gets there: one usable reading, rolled up, then flagged, is published whatever follows |
| TokenBucket.Limiter.Allow | internal/ratelimit/bucket.go:106-146 | For any hash and any number of shards, one call acts on the union of the shards as on one table, and changes the key's bucket only |
| TokenBucket.Limiter.EvictShard | internal/ratelimit/bucket.go:151-159 | One shard's turn of the sweep removes from the union exactly the stale keys of that shard |
| TokenBucket.Limiter.Evict | internal/ratelimit/bucket.go:149-160 | All turns together remove exactly the keys idle for longer than the TTL |
| TokenBucket.Limiter.Len | internal/ratelimit/bucket.go:162-170 | The shard sizes add up to the number of keys, none held twice |
| TokenBucket.SpendBound | internal/ratelimit/bucket.go:119-137 | For clock readings in any order tokens stay in [0, burst], and allowed calls are at most the tokens there were plus what the clock has earned since |
| TokenBucket.AllowedExactly | internal/ratelimit/bucket.go:112-143 | A call is allowed if and only if what was left and what was earned since, up to the burst, make a token; a first call finds the full burst; a refusal costs nothing |
| TokenBucket.WaitIsExact | internal/ratelimit/bucket.go:144-145 | The wait before rounding is the shortest after which the next call is allowed |
| TokenBucket.ToldWaitSuffices | internal/ratelimit/bucket.go:144-145 | The duration that comes with a refusal is at most half a second off the exact wait, and waiting for it is enough if and only if the exact wait is whole or at least half a second over a whole second |
| TokenBucket.HeaderSuffices | internal/httpx/chain.go:72-76 | The Retry-After that is sent, at least one second, is long enough if and only if the exact wait is at most a second, or whole, or at least half a second over a whole one |
| TokenBucket.HeaderHonestExactly | internal/ratelimit/bucket.go:100-105 | It is long enough for every refusal if and only if the bucket earns at least a token a second |
| TokenBucket.SlowFallsShort | internal/ratelimit/bucket.go:100-105 | At every slower rate, a bucket state whose refusal sends one second and whose key is still refused after it |
| TokenBucket.NoRefillNoToken | internal/ratelimit/bucket.go:139-143 | With no refill configured a refusal reports the TTL and the key is never allowed again, whatever the clock does |
| Eviction.EvictionUnobservable | internal/ratelimit/bucket.go:148-160 | With calls coming between the shards' turns as they may, no call of any run is answered, or admitted, differently because of a sweep, if and only if a bucket fills within the TTL (or can never hold a token) |
| Eviction.EarlierClock | internal/ratelimit/bucket.go:149-157 | A turn that uses the clock the sweep began with is one of the sweeps of those runs |
| Breadth.Counter.Observe | internal/ratelimit/enumerate.go:82-131 | One observation serves and records as specified, for the key's entry only |
| Breadth.EvictionUnobservable | internal/ratelimit/enumerate.go:133-145 | Over any run with a non-decreasing clock, sweeping changes no answer |
| Breadth.SweepTakesTheSilent | internal/ratelimit/enumerate.go:133-145 | Over any run with a non-decreasing clock, a key is held after a sweep if and only if it was observed within two windows of it |
| Breadth.SetsWithinLimits | internal/ratelimit/enumerate.go:124-129 | No set outgrows its limit, whatever the clock does and whenever the sweep runs |
| Breadth.OnceServedStaysServed | internal/ratelimit/enumerate.go:114-122 | A value once served is served again until its window rolls, whatever else the key asks for |
| Breadth.TwiceTheLimit | internal/ratelimit/enumerate.go:98-106 | Any half-open interval of one window's length serves a key at most twice the limit of distinct values |
| Breadth.TwiceTheLimitIsReached | internal/ratelimit/enumerate.go:98-106 | For every limit, a run across a window boundary that serves exactly twice the limit in one window's length |
| Admission.Gate.StepKeeps | internal/admit/admit.go:63-77 | Every atomic step keeps the counters equal to what the holders hold, blocks no receive, and refuses exactly when all slots are taken |
| Admission.AnyInterleaving | internal/admit/admit.go:56-80 | Over every interleaving, refused callers coming and going and releases repeated at will, the books hold, 0 <= in flight <= slots held <= size, and a holder gives its slot back at most once, exactly when it is done |
| Admission.EveryStep | internal/admit/admit.go:63-77 | At every position of every interleaving no receive blocks, and a new caller is refused if and only if all slots are taken |
| Admission.AllReturned | internal/admit/admit.go:56-62 | When every holder has returned, the gate is empty again |
| Admission.Semaphore.TryAcquire | internal/admit/admit.go:63-77 | Refuses if and only if all slots are taken, changing nothing, and otherwise makes the machine's two steps |
| Admission.Lease.Release | internal/admit/admit.go:67-73 | The first call gives the slot back, every later one changes nothing |
| Admission.LimitListener.Accept | internal/httpx/limitlistener.go:51-69 | While others close theirs, serves the first connection that finds a slot free; every one passed over came while all slots were taken and is counted; only the listener's own error ends the call otherwise |
| Admission.LimitConn.Close | internal/httpx/limitlistener.go:81-92 | The first close is the machine's two steps and gives the slot back, every later one changes nothing |
| Statistics.MedianAbsoluteDeviation | internal/quality/spatial.go:33-55 | The sorted clone and the filled slice compute the median and the median deviation |
| Statistics.MedianBreakdown | internal/quality/spatial.go:29-32 | While more than half of the values lie in [lo, hi], so does the median, whatever the others are |
| Statistics.MadBreakdown | internal/quality/spatial.go:29-32 | And the MAD is then at most hi - lo |
| Statistics.BreakdownIsTight | internal/quality/spatial.go:29-32 | Exactly half is not enough: at any even length the other half carry median and MAD as far as they please |
| Statistics.MedianWhere | internal/snapshot/hexes.go:891-903 | The same of the readings a loop gathers: while more than half of those reported lie in [lo, hi], so does their median |
| Statistics.RoundHalf | internal/snapshot/hexes.go:905-910 | Published values round a half away from zero |
| Quality.SpatialCheck | internal/quality/spatial.go:60-99 | The branches over neighbours, particulates, unguarded and smooth metrics |
| Quality.OutlierBreakdown | internal/quality/spatial.go:74-87 | With more than half of enough neighbours in [lo, hi], a smooth value farther outside than the limit of that width is always flagged, and one inside never when hi - lo is within the floor |
| Quality.ParticulateBreakdown | internal/quality/spatial.go:90-99 | The same for particulates, against the ratio and the absolute threshold |
| History.WindowSpread | internal/quality/history.go:104-120 | A window is accepted if and only if it is full and no two of its values differ by more than the tolerance and epsilon |
| History.AcceptedUnequal | internal/quality/history.go:114-119 | A full window is accepted as constant without being equal if and only if its spread is positive and within the epsilon |
| History.Histories.Observe | internal/quality/history.go:52-76 | The state, the order and the trimmed series after one observation, first-in first-out eviction included |
| History.ObserveKeeps | internal/quality/history.go:56-66 | The cap holds and the order lists each tracked sensor once |
| History.SeriesBelowCap | internal/quality/history.go:33-36 | Below the cap a series ends as the newest depth values observed of it, whatever was observed of others in between |
| Quality.Score | internal/quality/score.go:36-73 | Output i carries input i, flagged against the batch's usable readings and the history after all of them |
| Verdicts.ImplausibleExactly | internal/quality/score.go:77-82 | A reading is flagged clamped if and only if it equals its metric's sentinel, out of range if and only if it does not and lies outside its range or has none, whatever else is in the batch |
| Verdicts.NoNeighboursExactly | internal/quality/score.go:88-98 | A plausible reading that is not stuck has no neighbours if and only if too few plausible readings of its metric by other sensors are within the radius, counted over the batch |
| Verdicts.SmoothVerdict | internal/quality/score.go:88-98 | With more than half of enough of those in [lo, hi], a smooth reading farther outside than the limit of that width is an outlier and one inside is not when hi - lo is within the floor |
| Verdicts.ParticulateVerdict | internal/quality/score.go:88-98 | The same for particulates, against the ratio and the absolute threshold |
| Verdicts.NeverAnOutlier | internal/quality/spatial.go:74-94 | With enough neighbours a metric without a spatial expectation is ok, and so is a particulate reading while most of them read zero |
| Verdicts.StuckByReadings | internal/quality/score.go:59-86 | Below the cap, a plausible reading is stuck if and only if the newest depth values its sensor plausibly reported, this batch's included, differ by at most a billionth (or the tolerance, for temperature), constant zero particulates and saturated humidity under moving temperature excepted |
| Quality.UnusableDoNotInterfere | internal/quality/score.go:44-66 | Deleting every clamped or out-of-range reading changes no other reading's flag, nor the history |
| Quality.OrderDoesNotMatter | internal/quality/score.go:59-72 | Below the cap, any rearrangement that keeps each sensor's series in order gives each reading the same flag |
| Quality.StuckExactly | internal/quality/history.go:78-101 | The stuck rule, its exemptions and the failure signatures of internal/quality/score.go:114-134 combined: temperature is stuck if and only if frozen, humidity if constant unless at 100 with moving temperature, particulates if constant and non-zero, any other metric if constant |
| Quality.StuckMeansRepeated | internal/quality/score.go:59-86 | Below the cap, for every metric, a reading is flagged stuck if and only if the newest depth values its sensor reported, this batch's included, are all there and meet that rule |
| Quality.StuckWithoutEquality | internal/quality/history.go:78-91 | At every depth of two or more, a window of values that are not all equal is stuck |
| Quality.OrderMattersOverCap | internal/quality/history.go:60-65 | For every depth, every cap and every number of sensors over it, a batch and a rearrangement of it that keeps each series in order and yet flags a reading differently |
| Quality.OrderUnobservableExactly | internal/quality/history.go:56-66 | Order can be told from no flag of any batch and history of n sensors if and only if n is within the cap (or the cap admits none) |

## Left out

- HexGrid.HexOfNearest: exact arithmetic only; IEEE rounding near a cell's edge, NaN and infinities are not modelled, nor the trigonometry behind the projection scales.
- BBoxIndex.Clip: buckets are unbounded integers; the conversion of a huge float quotient to a machine integer is not modelled.
- HexBuild.HexPayload: the coverage table and the build time, which the caller fills in, are not part of the list; bins are values in a map rather than references, so aliasing between bins is not modelled.
- BodyCache.Snapshot.HexBody: tier snapping and encoding are unknown functions; the logarithmic rule that picks a tier is not modelled.
- Timelapse.RingIsFresh: is about the builds that succeed; a failed read returns no ring and the next build extends the earlier one.
- Admission.AnyInterleaving: steps are atomic; the memory model below channels and atomics is not modelled.
- Rollup.Store.RollupBacklog: raw rows and hourly rows are ghost maps, each transaction atomic and serial; two processes rolling up at once and the hooks for fault injection are not modelled.
- TokenBucket.Limiter.Allow: the wait is whole seconds in exact arithmetic; the overflow of an extremely long duration is not modelled.
- Ingest.RunOnce: fetching and the boundary filter are the accepted readings it is given; the sensor table, area assignment and the snapshot publish that follow are not part of it.
- Admission.LimitListener.Accept: the connections that may be closed meanwhile are those named by its events, each known by one object.
- Ingest.WriteReadings: statement batches of a thousand appear only as how far the write got.
- Window.RunPublishesPlainMean: needs that no write takes a usable reading back; RetractedReadingStaysPublished shows why.
- Raw and hourly retention, and the one-shot roll-up of all history.
- HTTP handlers, templates, JSON-LD, sitemap and metrics exposition.
- Geographic containment and area import, done inside PostGIS.
- Configuration loading and its validation lists, used here only as preconditions.
- Periods, series, backfill, ETag matching, the visitor cache and the catalogues: sound but easy beside the above.
- The design kit, the browser code and the build tooling.
