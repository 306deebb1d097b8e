/** The viewport index of internal/snapshot/hexes.go: entries bucketed on the
    quantum grid, so that a clip touches only the buckets a box overlaps. */
module BBoxIndex {
  import opened Contents
  import opened Sorting
  import opened Wire

  datatype Bucket = Bucket(col: int, row: int)

  function BucketOf(lon: real, lat: real): Bucket {
    Bucket((lon / QUANTUM).Floor, (lat / QUANTUM).Floor)
  }

  function BucketAt(entries: seq<Entry>, i: int): Bucket
    requires 0 <= i < |entries|
  {
    BucketOf(entries[i].lon, entries[i].lat)
  }

  predicate Inside(entries: seq<Entry>, bb: BBox, i: int)
    requires 0 <= i < |entries|
  {
    bb.Contains(entries[i].lon, entries[i].lat)
  }

  /** The entries a box contains among the first n, in their original order. */
  function ClippedTo(entries: seq<Entry>, bb: BBox, n: nat): seq<Entry>
    requires n <= |entries|
  {
    if n == 0 then []
    else ClippedTo(entries, bb, n - 1) + if Inside(entries, bb, n - 1) then [entries[n - 1]] else []
  }

  function Clipped(entries: seq<Entry>, bb: BBox): seq<Entry> {
    ClippedTo(entries, bb, |entries|)
  }

  method ClipLinear(entries: seq<Entry>, bb: BBox) returns (out: seq<Entry>)
    ensures out == Clipped(entries, bb)
  {
    out := [];
    for i := 0 to |entries|
      invariant out == ClippedTo(entries, bb, i)
    {
      if bb.Contains(entries[i].lon, entries[i].lat) {
        out := out + [entries[i]];
      }
    }
  }

  ghost function Positions(entries: seq<Entry>, n: nat, k: Bucket): set<int>
    requires n <= |entries|
  {
    set i | 0 <= i < n && BucketAt(entries, i) == k
  }

  /** buckets holds, per occupied bucket, the ascending positions of its
      entries; the other fields bound the occupied buckets. */
  datatype Index = Index(buckets: map<Bucket, seq<int>>, minCol: int, maxCol: int, minRow: int, maxRow: int) {

    ghost predicate IndexesTo(entries: seq<Entry>, n: nat)
      requires n <= |entries|
    {
      && (forall i | 0 <= i < n :: BucketAt(entries, i) in buckets)
      && (forall k | k in buckets :: Lists(buckets[k], Positions(entries, n, k)))
      && (forall i | 0 <= i < n ::
            minCol <= BucketAt(entries, i).col <= maxCol && minRow <= BucketAt(entries, i).row <= maxRow)
    }

    ghost predicate Indexes(entries: seq<Entry>) { IndexesTo(entries, |entries|) }
  }

  method BuildIndex(entries: seq<Entry>) returns (idx: Index)
    ensures idx.Indexes(entries)
  {
    hide BucketOf, Lists;
    idx := Index(map[], 0, 0, 0, 0);
    for i := 0 to |entries|
      invariant idx.IndexesTo(entries, i)
    {
      var k := BucketOf(entries[i].lon, entries[i].lat);
      var positions := if k in idx.buckets then idx.buckets[k] else [];
      AppendedPosition(entries, i, idx, positions);
      idx := idx.(buckets := idx.buckets[k := positions + [i]]);
      if i == 0 {
        idx := idx.(minCol := k.col, maxCol := k.col, minRow := k.row, maxRow := k.row);
      } else {
        idx := idx.(minCol := if k.col < idx.minCol then k.col else idx.minCol,
                    maxCol := if k.col > idx.maxCol then k.col else idx.maxCol,
                    minRow := if k.row < idx.minRow then k.row else idx.minRow,
                    maxRow := if k.row > idx.maxRow then k.row else idx.maxRow);
      }
    }
  }

  /** Appending the newest position keeps its bucket exact, and no other changes. */
  lemma AppendedPosition(entries: seq<Entry>, i: nat, was: Index, positions: seq<int>)
    requires i < |entries| && was.IndexesTo(entries, i)
    requires positions == if BucketAt(entries, i) in was.buckets then was.buckets[BucketAt(entries, i)] else []
    ensures Lists(positions + [i], Positions(entries, i + 1, BucketAt(entries, i)))
    ensures forall k | k != BucketAt(entries, i) :: Positions(entries, i + 1, k) == Positions(entries, i, k)
  {
    hide BucketAt, Lists;
    var k := BucketAt(entries, i);
    var mine := Positions(entries, i, k);
    NextPosition(entries, i);
    if k !in was.buckets {
      assert mine == {};
      NothingListed();
    }
    ListsAppend(positions, mine, i);
  }

  lemma NextPosition(entries: seq<Entry>, i: nat)
    requires i < |entries|
    ensures forall k :: Positions(entries, i + 1, k) ==
                        if k == BucketAt(entries, i) then Positions(entries, i, k) + {i} else Positions(entries, i, k)
  {
    hide BucketAt;
  }

  lemma NothingListed()
    ensures Lists([], {})
  {
  }

  /** Positions inside the box whose bucket the walk has passed: earlier columns,
      and earlier rows of column col. */
  ghost function Passed(entries: seq<Entry>, bb: BBox, col: int, row: int): set<int> {
    set p | 0 <= p < |entries| && Inside(entries, bb, p)
            && (BucketAt(entries, p).col < col || (BucketAt(entries, p).col == col && BucketAt(entries, p).row < row))
  }

  ghost function InBucket(entries: seq<Entry>, bb: BBox, k: Bucket): set<int> {
    set p | 0 <= p < |entries| && Inside(entries, bb, p) && BucketAt(entries, p) == k
  }

  lemma PassBucket(entries: seq<Entry>, bb: BBox, k: Bucket)
    ensures multiset(Passed(entries, bb, k.col, k.row + 1))
         == multiset(Passed(entries, bb, k.col, k.row)) + multiset(InBucket(entries, bb, k))
  {
  }

  /** A bucket strictly between the edge buckets lies wholly in the box. */
  lemma InteriorInside(e: Entry, bb: BBox)
    requires var k := BucketOf(e.lon, e.lat);
             && (bb.w / QUANTUM).Floor < k.col < (bb.e / QUANTUM).Floor
             && (bb.s / QUANTUM).Floor < k.row < (bb.n / QUANTUM).Floor
    ensures bb.Contains(e.lon, e.lat)
  {
  }

  /** Whatever the box, every entry inside it is in a visited bucket. */
  ghost predicate Covers(entries: seq<Entry>, bb: BBox, w0: int, e0: int, s0: int, n0: int) {
    forall p | 0 <= p < |entries| && Inside(entries, bb, p) ::
      w0 <= BucketAt(entries, p).col <= e0 && s0 <= BucketAt(entries, p).row <= n0
  }

  lemma BoxCovers(entries: seq<Entry>, bb: BBox)
    ensures Covers(entries, bb, (bb.w / QUANTUM).Floor, (bb.e / QUANTUM).Floor,
                   (bb.s / QUANTUM).Floor, (bb.n / QUANTUM).Floor)
  {
  }

  /** A finished column, and the finished walk. */
  lemma PassColumn(entries: seq<Entry>, bb: BBox, w0: int, e0: int, s0: int, n0: int, col: int, row: int)
    requires Covers(entries, bb, w0, e0, s0, n0)
    ensures n0 < row ==> Passed(entries, bb, col, row) == Passed(entries, bb, col + 1, s0)
    ensures col <= w0 ==> Passed(entries, bb, col, s0) == {}
    ensures e0 < col ==> Passed(entries, bb, col, s0) == set p | 0 <= p < |entries| && Inside(entries, bb, p)
  {
    hide BucketOf, Inside;
  }

  /** clip answers exactly the linear walk, for any box whatever. */
  method Clip(idx: Index, entries: seq<Entry>, bb: BBox) returns (out: seq<Entry>)
    requires idx.Indexes(entries)
    ensures out == Clipped(entries, bb)
  {
    hide BucketOf, Inside, Clipped, Passed, InBucket, Index.Indexes, Covers;
    var w0, e0 := (bb.w / QUANTUM).Floor, (bb.e / QUANTUM).Floor;
    var s0, n0 := (bb.s / QUANTUM).Floor, (bb.n / QUANTUM).Floor;
    if |idx.buckets| > 0 && w0 <= idx.minCol && e0 >= idx.maxCol && s0 <= idx.minRow && n0 >= idx.maxRow {
      out := ClipLinear(entries, bb);
      return;
    }

    BoxCovers(entries, bb);
    PassColumn(entries, bb, w0, e0, s0, n0, w0, s0);
    var idxs: seq<int> := [];
    var i := w0;
    while i <= e0
      invariant multiset(idxs) == multiset(Passed(entries, bb, i, s0))
    {
      var edgeCol := i == w0 || i == e0;
      var j := s0;
      while j <= n0
        invariant multiset(idxs) == multiset(Passed(entries, bb, i, j))
      {
        var k := Bucket(i, j);
        PassBucket(entries, bb, k);
        if k in idx.buckets {
          if edgeCol || j == s0 || j == n0 {
            BucketPositions(entries, idx, k);
            var kept := KeepInside(entries, bb, idx.buckets[k]);
            KeptContents(entries, bb, idx.buckets[k], k, kept);
            idxs := idxs + kept;
          } else {
            InteriorBucket(entries, bb, idx, k);
            idxs := idxs + idx.buckets[k];
          }
        } else {
          AbsentBucket(entries, bb, idx, k);
        }
        j := j + 1;
      }
      PassColumn(entries, bb, w0, e0, s0, n0, i, j);
      i := i + 1;
    }
    PassColumn(entries, bb, w0, e0, s0, n0, i, s0);
    var sorted := Sort(IntAtMost, idxs);
    SortCorrect(IntAtMost, idxs);
    out := Pick(entries, bb, sorted);
  }

  lemma AbsentBucket(entries: seq<Entry>, bb: BBox, idx: Index, k: Bucket)
    requires idx.Indexes(entries) && k !in idx.buckets
    ensures InBucket(entries, bb, k) == {}
  {
    hide BucketOf, Inside;
  }

  /** The re-check of an edge bucket's entries against the box itself. */
  method KeepInside(entries: seq<Entry>, bb: BBox, bucket: seq<int>) returns (kept: seq<int>)
    requires forall i | 0 <= i < |bucket| :: 0 <= bucket[i] < |entries|
    ensures forall p | p in kept :: 0 <= p < |entries|
    ensures forall p | 0 <= p < |entries| ::
              multiset(kept)[p] == if Inside(entries, bb, p) then multiset(bucket)[p] else 0
  {
    hide BBox.Contains;
    kept := [];
    for at := 0 to |bucket|
      invariant forall i | 0 <= i < |kept| :: 0 <= kept[i] < |entries|
      invariant forall p | 0 <= p < |entries| ::
                  multiset(kept)[p] == if Inside(entries, bb, p) then multiset(bucket[..at])[p] else 0
    {
      assert bucket[..at + 1] == bucket[..at] + [bucket[at]];
      if bb.Contains(entries[bucket[at]].lon, entries[bucket[at]].lat) {
        kept := kept + [bucket[at]];
      }
    }
    assert bucket[..|bucket|] == bucket;
  }

  lemma KeptContents(entries: seq<Entry>, bb: BBox, bucket: seq<int>, k: Bucket, kept: seq<int>)
    requires multiset(bucket) == multiset(Positions(entries, |entries|, k))
    requires forall p | p in kept :: 0 <= p < |entries|
    requires forall p | 0 <= p < |entries| ::
               multiset(kept)[p] == if Inside(entries, bb, p) then multiset(bucket)[p] else 0
    ensures multiset(kept) == multiset(InBucket(entries, bb, k))
  {
    hide BucketOf, BBox.Contains;
    var mine, want := Positions(entries, |entries|, k), InBucket(entries, bb, k);
    forall p ensures multiset(kept)[p] == multiset(want)[p] {
      if 0 <= p < |entries| {
        assert multiset(mine)[p] == if p in mine then 1 else 0;
        assert multiset(want)[p] == if p in want then 1 else 0;
      } else {
        assert p !in kept && p !in want;
      }
    }
  }

  lemma BucketPositions(entries: seq<Entry>, idx: Index, k: Bucket)
    requires idx.Indexes(entries) && k in idx.buckets
    ensures forall i | 0 <= i < |idx.buckets[k]| :: 0 <= idx.buckets[k][i] < |entries|
    ensures multiset(idx.buckets[k]) == multiset(Positions(entries, |entries|, k))
  {
    hide BucketOf;
    var bucket, mine := idx.buckets[k], Positions(entries, |entries|, k);
    DistinctFromSet(bucket, mine);
    assert forall i | 0 <= i < |bucket| :: bucket[i] in mine;
  }

  lemma InteriorBucket(entries: seq<Entry>, bb: BBox, idx: Index, k: Bucket)
    requires idx.Indexes(entries) && k in idx.buckets
    requires (bb.w / QUANTUM).Floor < k.col < (bb.e / QUANTUM).Floor
    requires (bb.s / QUANTUM).Floor < k.row < (bb.n / QUANTUM).Floor
    ensures multiset(idx.buckets[k]) == multiset(InBucket(entries, bb, k))
  {
    hide BucketOf, BBox.Contains;
    forall p | 0 <= p < |entries| && BucketAt(entries, p) == k ensures Inside(entries, bb, p) {
      InteriorInside(entries[p], bb);
    }
    assert InBucket(entries, bb, k) == Positions(entries, |entries|, k);
  }

  /** Copying out the entries at ascending positions. */
  method Pick(entries: seq<Entry>, bb: BBox, sorted: seq<int>) returns (out: seq<Entry>)
    requires Lists(sorted, set p | 0 <= p < |entries| && Inside(entries, bb, p))
    ensures out == Clipped(entries, bb)
  {
    hide Inside;
    ghost var inside := set p | 0 <= p < |entries| && Inside(entries, bb, p);
    DistinctFromSet(sorted, inside);
    assert forall j | 0 <= j < |sorted| :: sorted[j] in inside;
    out := [];
    for i := 0 to |sorted|
      invariant |out| == i && forall j | 0 <= j < i :: out[j] == entries[sorted[j]]
    {
      out := out + [entries[sorted[i]]];
    }
    SortedPositions(entries, bb, |entries|, sorted, out);
  }

  /** Ascending positions of exactly the entries inside pick out the clip. */
  lemma {:induction false} SortedPositions(entries: seq<Entry>, bb: BBox, n: nat, ps: seq<int>, out: seq<Entry>)
    requires n <= |entries| && Lists(ps, set p | 0 <= p < n && Inside(entries, bb, p))
    requires |out| == |ps| && forall i | 0 <= i < |ps| :: 0 <= ps[i] < |entries| && out[i] == entries[ps[i]]
    ensures out == ClippedTo(entries, bb, n)
    decreases n
  {
    hide Inside, Lists;
    var inside := set p | 0 <= p < n && Inside(entries, bb, p);
    if n == 0 {
      assert inside == {};
      ListsEmpty(ps);
    } else {
      var end := |ps| - 1;
      var insideFront := set p | 0 <= p < n - 1 && Inside(entries, bb, p);
      if Inside(entries, bb, n - 1) {
        ListsDropLast(ps, inside, n - 1);
        assert inside - {n - 1} == insideFront;
        SortedPositions(entries, bb, n - 1, ps[..end], out[..end]);
        assert out == out[..end] + [out[end]];
      } else {
        assert inside == insideFront;
        SortedPositions(entries, bb, n - 1, ps, out);
      }
    }
  }

  /** The entry's position lies between the box's edges, edges included. */
  function InBox(bb: BBox): Entry -> bool {
    (e: Entry) => bb.w <= e.lon <= bb.e && bb.s <= e.lat <= bb.n
  }

  /** A clip answers the entries whose position lies in the box, in their original
      order. */
  lemma {:induction false} ClipIsFilter(entries: seq<Entry>, bb: BBox)
    ensures Clipped(entries, bb) == Collect(Where(InBox(bb)), entries)
  {
    for n := 0 to |entries|
      invariant ClippedTo(entries, bb, n) == Collect(Where(InBox(bb)), entries[..n])
    {
      assert entries[..n + 1] == entries[..n] + [entries[n]];
      CollectStep(Where(InBox(bb)), entries[..n], entries[n]);
    }
    assert entries[..|entries|] == entries;
  }
}
