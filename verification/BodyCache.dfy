/** The per-snapshot memo of encoded answers (internal/snapshot/hexes.go).

    encode (JSON, gzip, SHA-256) is an unknown deterministic function that may
    fail; so is the tier-snapping of a requested resolution. */
module BodyCache {
  import opened Contents
  import opened Wire
  import opened BBoxIndex

  datatype Body = Body(json: string, gzip: string, etag: string) {
    /** The bytes a held body accounts for. */
    function Size(): nat { |json| + |gzip| + |etag| }
  }

  datatype Key = Key(resKM: real, w: real, s: real, e: real, n: real, point: bool)

  const MAX_ENTRIES := 256
  const MAX_BYTES := 32 * 1048576
  const DEFAULT_KM := 15.0
  const POINT_KM := 0.0

  // ---- the memo ----

  /** The sum of the sizes of the stored bodies. */
  ghost function Total(m: map<Key, Body>): nat
    decreases |m|
  {
    if m == map[] then 0
    else
      var k :| k in m;
      m[k].Size() + Total(m - {k})
  }

  lemma {:induction false} TotalRemove(m: map<Key, Body>, k: Key)
    requires k in m
    ensures Total(m) == m[k].Size() + Total(m - {k})
    decreases |m|
  {
    var c :| c in m && Total(m) == m[c].Size() + Total(m - {c});
    if c != k {
      TotalRemove(m - {c}, k);
      TotalRemove(m - {k}, c);
      assert m - {c} - {k} == m - {k} - {c};
    }
  }

  /** A memo and its byte counter, and what put makes of them. */
  datatype Memo = Memo(m: map<Key, Body>, bytes: int) {
    ghost predicate Bounded() {
      bytes == Total(m) && bytes <= MAX_BYTES && |m| <= MAX_ENTRIES
    }

    function Put(k: Key, b: Body): Memo {
      var existing := if k in m then m[k].Size() else 0;
      if b.Size() > MAX_BYTES then this
      else if |m| >= MAX_ENTRIES || bytes - existing + b.Size() > MAX_BYTES then Memo(map[k := b], b.Size())
      else Memo(m[k := b], bytes + b.Size() - existing)
    }

    /** A body that fits the memo is held from then on, and so is every other body
        unless there is no room for all of them; one that never fits changes nothing. */
    lemma PutStores(k: Key, b: Body)
      requires Bounded()
      ensures b.Size() > MAX_BYTES ==> Put(k, b) == this
      ensures b.Size() <= MAX_BYTES ==> k in Put(k, b).m && Put(k, b).m[k] == b
      ensures b.Size() <= MAX_BYTES && |m| < MAX_ENTRIES && Total(m[k := b]) <= MAX_BYTES ==> Put(k, b).m == m[k := b]
    {
      TotalUpdate(m, k, b);
    }

    /** Both bounds survive every put, and the counter stays the exact sum. */
    lemma PutBounded(k: Key, b: Body)
      requires Bounded()
      ensures Put(k, b).Bounded()
    {
      var single: map<Key, Body> := map[k := b];
      TotalRemove(single, k);
      assert single - {k} == map[];
      TotalUpdate(m, k, b);
      assert m[k := b].Keys == m.Keys + {k};
      assert k in m ==> m[k := b].Keys == m.Keys;
    }
  }

  lemma TotalUpdate(m: map<Key, Body>, k: Key, b: Body)
    ensures Total(m[k := b]) == Total(m) - (if k in m then m[k].Size() else 0) + b.Size()
  {
    var updated := m[k := b];
    TotalRemove(updated, k);
    assert updated - {k} == m - {k};
    if k in m {
      TotalRemove(m, k);
    } else {
      assert m - {k} == m;
    }
  }

  class Cache {
    var m: map<Key, Body>
    var bytes: int

    constructor ()
      ensures Contents() == Memo(map[], 0)
    {
      m, bytes := map[], 0;
    }

    function Contents(): Memo
      reads this
    {
      Memo(m, bytes)
    }

    method Get(k: Key) returns (b: Option<Body>)
      ensures b == if k in m then Some(m[k]) else None
    {
      b := if k in m then Some(m[k]) else None;
    }

    method Put(k: Key, b: Body)
      modifies this
      ensures Contents() == old(Contents()).Put(k, b)
    {
      var size := b.Size();
      if size > MAX_BYTES {
        return;
      }
      var existing := if k in m then m[k].Size() else 0;
      if |m| >= MAX_ENTRIES || bytes - existing + size > MAX_BYTES {
        m, bytes, existing := map[], 0, 0;
      }
      m := m[k := b];
      bytes := bytes + size - existing;
    }
  }

  // ---- the questions a snapshot answers ----

  datatype Payload = Payload(generatedAt: int, resKM: real, hexes: seq<Entry>,
                             coverage: map<string, map<string, int>>)

  /** An unencoded resolution and the index over its entries, if one was built. */
  datatype Tier = Tier(payload: Payload, idx: Option<Index>)

  datatype Request = Hex(resKM: real, box: BBox, clip: bool) | Point(box: BBox)

  /** The immutable part of a snapshot. */
  datatype Content = Content(generatedAt: int, tiers: map<real, Tier>, hexes: Body, points: seq<Entry>,
                             pointsIndex: Option<Index>, coverage: map<string, map<string, int>>,
                             snap: real -> real, encode: Payload -> Result<Body>) {

    ghost predicate Valid() {
      && (forall r | r in tiers :: tiers[r].idx.Some? ==> tiers[r].idx.value.Indexes(tiers[r].payload.hexes))
      && (pointsIndex.Some? ==> pointsIndex.value.Indexes(points))
    }

    /** Answered from the body encoded at build time. */
    predicate Prebuilt(q: Request) {
      q.Hex? && ((!q.clip && snap(q.resKM) == DEFAULT_KM) || snap(q.resKM) !in tiers)
    }

    /** What the question encodes to with no memo at all. */
    function Answer(q: Request): Result<Body> {
      if Prebuilt(q) then Ok(hexes)
      else match q
        case Hex(r, box, clip) =>
          var p := tiers[snap(r)].payload;
          encode(if clip then p.(hexes := Clipped(p.hexes, box)) else p)
        case Point(box) => encode(Payload(generatedAt, POINT_KM, Clipped(points, box), coverage))
    }

    /** An unclipped question at the default resolution and one at an unknown one get
        the prebuilt body, any other unclipped one its whole tier; a clipped one gets
        its tier's entries inside the box, and the point tier's is always clipped. */
    lemma AnswerSays(q: Request)
      ensures match q
        case Hex(r, box, clip) =>
          if snap(r) !in tiers || (!clip && snap(r) == 15.0) then Answer(q) == Ok(hexes)
          else
            var p := tiers[snap(r)].payload;
            Answer(q) == if !clip then encode(p)
                         else encode(Payload(p.generatedAt, p.resKM, Collect(Where(InBox(box)), p.hexes), p.coverage))
        case Point(box) => Answer(q) == encode(Payload(generatedAt, 0.0, Collect(Where(InBox(box)), points), coverage))
    {
      match q
      case Hex(r, box, clip) =>
        if snap(r) in tiers {
          ClipIsFilter(tiers[snap(r)].payload.hexes, box);
        }
      case Point(box) => ClipIsFilter(points, box);
    }

    function KeyOf(q: Request): Key {
      match q
      case Hex(r, box, clip) =>
        if clip then Key(snap(r), box.w, box.s, box.e, box.n, false) else Key(snap(r), 0.0, 0.0, 0.0, 0.0, false)
      case Point(box) => Key(POINT_KM, box.w, box.s, box.e, box.n, true)
    }

    /** The same tier with the same clip, or the same point box. */
    predicate SameQuestion(a: Request, b: Request) {
      || (a.Hex? && b.Hex? && snap(a.resKM) == snap(b.resKM) && a.clip == b.clip && (a.clip ==> a.box == b.box))
      || (a.Point? && b.Point? && a.box == b.box)
    }

    /** One unclipped question, and one clipped to the box that stands for it. */
    predicate ZeroBoxClash(a: Request, b: Request) {
      a.Hex? && b.Hex? && snap(a.resKM) == snap(b.resKM) && a.clip != b.clip
      && (if a.clip then a.box else b.box) == ZeroBox
    }

    /** Exactly which questions share a key. */
    lemma KeysShared(a: Request, b: Request)
      ensures KeyOf(a) == KeyOf(b) <==> SameQuestion(a, b) || ZeroBoxClash(a, b)
    {
    }

    /** A memo from which every askable question is answered as if unmemoised. */
    ghost predicate Honest(memo: Memo) {
      forall q: Request | Askable(q) && !Prebuilt(q) && KeyOf(q) in memo.m :: Answer(q) == Ok(memo.m[KeyOf(q)])
    }

    lemma PutHonest(memo: Memo, q: Request, b: Body)
      requires Honest(memo) && Askable(q) && !Prebuilt(q) && Answer(q) == Ok(b)
      ensures Honest(memo.Put(KeyOf(q), b))
    {
    }

    /** A memo in which every body answers some question with its key. */
    ghost predicate Plausible(memo: Memo) {
      forall k | k in memo.m :: exists q: Request :: !Prebuilt(q) && KeyOf(q) == k && Answer(q) == Ok(memo.m[k])
    }

    /** The answer to the other question that an unclipped one, or one clipped to
        the zero box, can be mistaken for. */
    ghost predicate Mistaken(q: Request, r: Result<Body>) {
      exists other: Request :: ZeroBoxClash(q, other) && r == Answer(other)
    }

    lemma PutPlausible(memo: Memo, q: Request, b: Body)
      requires Plausible(memo) && !Prebuilt(q) && Answer(q) == Ok(b)
      ensures Plausible(memo.Put(KeyOf(q), b))
    {
      hide Answer, Prebuilt;
    }

    lemma HitMeans(memo: Memo, q: Request)
      requires Plausible(memo) && KeyOf(q) in memo.m
      ensures var r := Ok(memo.m[KeyOf(q)]); r == Answer(q) || Mistaken(q, r)
    {
      var other: Request :| !Prebuilt(other) && KeyOf(other) == KeyOf(q) && Answer(other) == Ok(memo.m[KeyOf(q)]);
      KeysShared(q, other);
    }

    /** The memo after some answers were stored, in any order and any number of
        times, as interleaved callers may leave it. */
    ghost function Stored(memo: Memo, qs: seq<Request>): Memo {
      if qs == [] then memo
      else
        var before := Stored(memo, qs[..|qs| - 1]);
        var q := qs[|qs| - 1];
        if Prebuilt(q) || Answer(q).Err? then before else before.Put(KeyOf(q), Answer(q).value)
    }

    /** Callers look up and store separately, each under the lock, so between a
        caller's two steps any others' stores may come. Whatever was stored, a
        lookup that hits returns the unmemoised answer, and the bounds hold. */
    lemma {:induction false} AnyInterleaving(qs: seq<Request>)
      requires forall q | q in qs :: Askable(q)
      ensures Honest(Stored(Memo(map[], 0), qs)) && Stored(Memo(map[], 0), qs).Bounded()
      decreases |qs|
    {
      if qs != [] {
        var front, q := qs[..|qs| - 1], qs[|qs| - 1];
        AnyInterleaving(front);
        assert q in qs;
        if !Prebuilt(q) && Answer(q).Ok? {
          PutHonest(Stored(Memo(map[], 0), front), q, Answer(q).value);
          Stored(Memo(map[], 0), front).PutBounded(KeyOf(q), Answer(q).value);
        }
      }
    }
  }

  const ZeroBox := BBox(0.0, 0.0, 0.0, 0.0)

  /** A question whose clip, if it has one, cannot be mistaken for no clip. */
  predicate Askable(q: Request) {
    q.Hex? && q.clip ==> q.box != ZeroBox
  }

  /** Every box the parser lets through has its west strictly left of its east,
      and so has the quantised box the handler asks with. */
  lemma ParsedIsAskable(resKM: real, parsed: BBox, clip: bool)
    requires parsed.w < parsed.e
    ensures Askable(Hex(resKM, parsed, clip)) && Askable(Hex(resKM, parsed.Quantise(), clip))
  {
  }

  /** Without that, the memo is visible: after an unclipped answer is stored, the
      same tier clipped to the zero box is answered with the whole tier. */
  lemma ZeroBoxSeesWholeTier() returns (c: Content, whole: Request, clipped: Request)
    ensures c.Valid() && !c.Prebuilt(whole) && !c.Prebuilt(clipped)
    ensures c.Answer(whole).Ok? && c.Answer(clipped).Ok? && c.Answer(whole) != c.Answer(clipped)
    ensures var memo := Memo(map[], 0).Put(c.KeyOf(whole), c.Answer(whole).value);
            c.KeyOf(clipped) in memo.m && Ok(memo.m[c.KeyOf(clipped)]) == c.Answer(whole)
  {
    var cell := Entry(1.0, 1.0, 0, map[], 1, "", map[], "", map[]);
    var tier := Tier(Payload(0, 100.0, [cell], map[]), None);
    c := Content(0, map[100.0 := tier], Body("", "", ""), [], None, map[], r => r,
                 (p: Payload) => Ok(Body(if p.hexes == [] then "" else "x", "", "")));
    whole, clipped := Hex(100.0, ZeroBox, false), Hex(100.0, ZeroBox, true);
    assert !Inside([cell], ZeroBox, 0) && ClippedTo([cell], ZeroBox, 0) == [];
    assert ClippedTo([cell], ZeroBox, 1) == [];
  }

  class Snapshot {
    const content: Content
    const bodies: Cache?

    ghost predicate Valid()
      reads this, bodies
    {
      content.Valid() && (bodies != null ==> bodies.Contents().Bounded() && content.Plausible(bodies.Contents()))
    }

    /** No body in the memo can be taken for another question's. */
    ghost predicate Unmistaken()
      reads this, bodies
    {
      bodies != null ==> content.Honest(bodies.Contents())
    }

    constructor (content: Content)
      requires content.Valid()
      ensures Valid() && Unmistaken() && fresh(bodies) && this.content == content
    {
      this.content := content;
      bodies := new Cache();
    }

    /** The memo is invisible, the answer being the unmemoised one, as long as no
        clip has been to the zero box. A caller that does clip to it may be given, or
        leave for others, the answer to the one question it clashes with. */
    method HexBody(resKM: real, box: BBox, clip: bool) returns (r: Result<Body>)
      requires Valid()
      modifies bodies
      ensures Valid()
      ensures r == content.Answer(Hex(resKM, box, clip)) || content.Mistaken(Hex(resKM, box, clip), r)
      ensures old(Unmistaken()) && Askable(Hex(resKM, box, clip)) ==>
                Unmistaken() && r == content.Answer(Hex(resKM, box, clip))
    {
      ghost var q := Hex(resKM, box, clip);
      var snapped := content.snap(resKM);
      if !clip && snapped == DEFAULT_KM {
        return Ok(content.hexes);
      }
      if snapped !in content.tiers {
        return Ok(content.hexes);
      }
      var k := if clip then Key(snapped, box.w, box.s, box.e, box.n, false)
               else Key(snapped, 0.0, 0.0, 0.0, 0.0, false);
      if bodies != null {
        var hit := bodies.Get(k);
        if hit.Some? {
          content.HitMeans(bodies.Contents(), q);
          return Ok(hit.value);
        }
      }
      var tier := content.tiers[snapped];
      var out := tier.payload;
      if clip {
        var hexes := ClipWith(tier.idx, tier.payload.hexes, box);
        out := Payload(tier.payload.generatedAt, tier.payload.resKM, hexes, tier.payload.coverage);
      }
      r := content.encode(out);
      if r.Ok? && bodies != null {
        if content.Honest(bodies.Contents()) && Askable(q) {
          content.PutHonest(bodies.Contents(), q, r.value);
        }
        content.PutPlausible(bodies.Contents(), q, r.value);
        bodies.Contents().PutBounded(k, r.value);
        bodies.Put(k, r.value);
      }
    }

    method PointBody(box: BBox) returns (r: Result<Body>)
      requires Valid()
      modifies bodies
      ensures Valid() && r == content.Answer(Point(box))
      ensures old(Unmistaken()) ==> Unmistaken()
    {
      var k := Key(POINT_KM, box.w, box.s, box.e, box.n, true);
      if bodies != null {
        var hit := bodies.Get(k);
        if hit.Some? {
          content.HitMeans(bodies.Contents(), Point(box));
          return Ok(hit.value);
        }
      }
      var hexes := ClipWith(content.pointsIndex, content.points, box);
      r := content.encode(Payload(content.generatedAt, POINT_KM, hexes, content.coverage));
      if r.Ok? && bodies != null {
        if content.Honest(bodies.Contents()) {
          content.PutHonest(bodies.Contents(), Point(box), r.value);
        }
        content.PutPlausible(bodies.Contents(), Point(box), r.value);
        bodies.Contents().PutBounded(k, r.value);
        bodies.Put(k, r.value);
      }
    }
  }

  method ClipWith(idx: Option<Index>, entries: seq<Entry>, box: BBox) returns (out: seq<Entry>)
    requires idx.Some? ==> idx.value.Indexes(entries)
    ensures out == Clipped(entries, box)
  {
    if idx.Some? {
      out := Clip(idx.value, entries, box);
    } else {
      out := ClipLinear(entries, box);
    }
  }
}
