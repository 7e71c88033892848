/** What TileDecoder.java computes, as functions of the tile's content bytes:
    the field dispatch of decode, the tag-pair resolution of decodeTileTags,
    the sub-field loop of decodeTileElement with its emission of ways and
    points of interest, decodeElementTags and decodeWayIndices.

    Failure outcomes name the exception Java throws; a `return null` in
    TileDecoder.java is Null (decode) or Rejected (tag resolution). The static
    tag tables of Tags (keys, values, ATTRIB_OFFSET, MAX_KEY, MAX_VALUE) are
    not part of this model and come in as a Tables value. */
module TileSpec {
  import opened Wire
  import Protobuf
  import opened Geometry

  const TAG_TILE_VERSION: int := 1
  const TAG_TILE_NUM_TAGS: int := 11
  const TAG_TILE_NUM_KEYS: int := 12
  const TAG_TILE_NUM_VALUES: int := 13
  const TAG_TILE_TAG_KEYS: int := 14
  const TAG_TILE_TAG_VALUES: int := 15
  const TAG_TILE_TAGS: int := 16
  const TAG_TILE_LINE: int := 21
  const TAG_TILE_POLY: int := 22
  const TAG_TILE_POINT: int := 23

  const TAG_ELEM_NUM_INDICES: int := 1
  const TAG_ELEM_NUM_TAGS: int := 2
  const TAG_ELEM_TAGS: int := 11
  const TAG_ELEM_INDEX: int := 12
  const TAG_ELEM_COORDS: int := 13
  const TAG_ELEM_LAYER: int := 21

  /** The only tile format version decode accepts. */
  const VERSION: int := 4

  /** The length of the scratch short[] the decoder starts with. */
  const POOL_SIZE: int := 100

  /** A Java String reference: its bytes, or None for null. */
  type Str = Option<seq<byte>>

  datatype Tag = Tag(key: Str, value: Str)

  /** The static tag tables of Tags. */
  datatype Tables = Tables(keys: seq<seq<byte>>, values: seq<seq<byte>>, attribOffset: int,
                           maxKey: int, maxValue: int)

  datatype Way = Way(layer: int, tags: seq<Option<Tag>>, geom: Geom)

  datatype Poi = Poi(layer: int, tags: seq<Option<Tag>>, pos: Point)

  /** The outcome of a lookup that may return false or null (Rejected) or
      throw (Crash). */
  datatype Resolution<T> = Resolved(value: T) | Rejected | Crash(error: Error)

  // ---------------------------------------------------------------------------
  // Scratch arrays

  /** The length of the short[] that holds `n` values: the scratch array is
      replaced by one of length `n` only when it is shorter. */
  function PoolFor(n: int): (r: int)
    ensures r >= n && r >= POOL_SIZE && (n <= POOL_SIZE ==> r == POOL_SIZE)
  {
    if n > POOL_SIZE then n else POOL_SIZE
  }

  /** A fresh short[] of length `cap` after decodeVarintArray stored `vs` at
      its start. */
  function Filled(vs: seq<short>, cap: int): (r: seq<short>)
    ensures |r| >= cap && |r| >= |vs| && r[..|vs|] == vs
    ensures forall i :: |vs| <= i < |r| ==> r[i] == 0
  {
    vs + seq(if cap > |vs| then cap - |vs| else 0, _ => 0)
  }

  // ---------------------------------------------------------------------------
  // decodeTileTags

  /** One index of a tag pair: below `off` it selects the static table and
      is rejected above `max`; otherwise it selects the tile's own table at
      `k - off` and is rejected at or past its length. The tile table is null
      until its count was read. */
  function ResolveIndex(k: int, fixed: seq<seq<byte>>, max: int, tile: Option<seq<Str>>, off: int)
    : Resolution<Str>
  {
    if k < off then
      if k > max then Rejected
      else if 0 <= k < |fixed| then Resolved(Some(fixed[k]))
      else Crash(OutOfBounds)
    else if tile.None? then Crash(NullReference)
    else
      var j := Int32(k - off);
      if j >= |tile.value| then Rejected
      else if j < 0 then Crash(OutOfBounds)
      else Resolved(tile.value[j])
  }

  /** The pairs i .. n-1 of `idx`, pair i being idx[2i], idx[2i+1], resolved
      to tags in order; the first pair that fails decides the outcome. */
  function TagPairs(idx: seq<short>, i: nat, n: nat, keys: Option<seq<Str>>, vals: Option<seq<Str>>,
                    t: Tables): Resolution<seq<Tag>>
    requires i <= n && 2 * n <= |idx|
    decreases n - i
  {
    if i == n then Resolved([])
    else
      match ResolveIndex(idx[2 * i], t.keys, t.maxKey, keys, t.attribOffset)
      case Rejected => Rejected
      case Crash(e) => Crash(e)
      case Resolved(key) =>
        match ResolveIndex(idx[2 * i + 1], t.values, t.maxValue, vals, t.attribOffset)
        case Rejected => Rejected
        case Crash(e) => Crash(e)
        case Resolved(val) => Prepend([Tag(key, val)], TagPairs(idx, i + 1, n, keys, vals, t))
  }

  /** `acc` before a resolved table; a failure stays as it is. */
  function Prepend(acc: seq<Tag>, r: Resolution<seq<Tag>>): Resolution<seq<Tag>> {
    match r
    case Resolved(rest) => Resolved(acc + rest)
    case other => other
  }

  /** The number of pairs decodeTileTags reads: its loop runs while
      i < numTags * 2, computed as a Java int. */
  function PairCount(numTags: int): (r: nat)
    ensures 2 * r <= Int32(numTags * 2) || r == 0
  {
    var len := Int32(numTags * 2);
    if len > 0 then len / 2 else 0
  }

  /** decodeTileTags on the short[] `idx`. */
  function TileTags(idx: seq<short>, numTags: int, keys: Option<seq<Str>>, vals: Option<seq<Str>>,
                    t: Tables): Resolution<seq<Tag>>
    requires Int32(numTags * 2) <= |idx|
  {
    TagPairs(idx, 0, PairCount(numTags), keys, vals, t)
  }

  /** An accepted pair is the static entry below the offset (at most the
      maximum) or the tile entry at the index less the offset (below the
      table's length). */
  lemma ResolveIndexMeaning(k: short, fixed: seq<seq<byte>>, max: int, tile: Option<seq<Str>>, off: int)
    requires 0 <= off
    ensures ResolveIndex(k, fixed, max, tile, off).Resolved? <==>
              (k < off && 0 <= k <= max && k < |fixed|)
              || (off <= k && tile.Some? && k - off < |tile.value|)
    ensures ResolveIndex(k, fixed, max, tile, off).Resolved? ==>
              ResolveIndex(k, fixed, max, tile, off).value
              == if k < off then Some(fixed[k]) else tile.value[k - off]
    ensures ResolveIndex(k, fixed, max, tile, off).Rejected? <==>
              (k < off && k > max) || (off <= k && tile.Some? && k - off >= |tile.value|)
  {
  }

  /** Resolved pairs give exactly one tag per pair, in order, each made of
      its pair's two resolved indices. */
  lemma {:induction false} TagPairsInOrder(idx: seq<short>, i: nat, n: nat, keys: Option<seq<Str>>,
                                           vals: Option<seq<Str>>, t: Tables)
    requires i <= n && 2 * n <= |idx| && TagPairs(idx, i, n, keys, vals, t).Resolved?
    ensures var ts := TagPairs(idx, i, n, keys, vals, t).value;
            |ts| == n - i
            && forall j :: i <= j < n ==>
                 ResolveIndex(idx[2 * j], t.keys, t.maxKey, keys, t.attribOffset) == Resolved(ts[j - i].key)
                 && ResolveIndex(idx[2 * j + 1], t.values, t.maxValue, vals, t.attribOffset)
                    == Resolved(ts[j - i].value)
    decreases n - i
  {
    if i < n {
      TagPairsInOrder(idx, i + 1, n, keys, vals, t);
    }
  }

  /** A pair that does not resolve makes the whole table fail, and when every
      pair resolves the table resolves. */
  lemma {:induction false} TagPairsAllOrNothing(idx: seq<short>, i: nat, n: nat, keys: Option<seq<Str>>,
                                                vals: Option<seq<Str>>, t: Tables)
    requires i <= n && 2 * n <= |idx|
    ensures TagPairs(idx, i, n, keys, vals, t).Resolved? <==>
              forall j :: i <= j < n ==>
                ResolveIndex(idx[2 * j], t.keys, t.maxKey, keys, t.attribOffset).Resolved?
                && ResolveIndex(idx[2 * j + 1], t.values, t.maxValue, vals, t.attribOffset).Resolved?
    decreases n - i
  {
    if i < n {
      TagPairsAllOrNothing(idx, i + 1, n, keys, vals, t);
    }
  }

  // ---------------------------------------------------------------------------
  // decodeElementTags and decodeWayIndices

  /** The tag at `idx` of the tile's tag set; the slot just past the last
      tag holds no tag (null). */
  function TagAt(tagSet: seq<Tag>, idx: nat): Option<Tag> {
    if idx < |tagSet| then Some(tagSet[idx]) else None
  }

  /** decodeElementTags after its ids were read into `ids`: a non-positive
      count indexes the per-count array pool at -1 or below; an id below 0 or
      above the tag count makes the result null; otherwise each id is looked
      up in the tile's tag set. */
  function ElementTags(ids: seq<short>, numTags: int, tagSet: seq<Tag>): (r: Resolution<seq<Option<Tag>>>)
    requires numTags <= |ids|
    ensures r.Resolved? ==> |r.value| == numTags
  {
    if numTags <= 0 then Crash(OutOfBounds)
    else if exists i :: 0 <= i < numTags && !(0 <= ids[i] <= |tagSet|) then Rejected
    else Resolved(seq(numTags, i requires 0 <= i < numTags => TagAt(tagSet, ids[i] as nat)))
  }

  /** decodeElementTags on the content `s`: the ids as a varint array into
      the scratch array, then their lookup; null becomes None. */
  function ElementTagsAt(s: seq<byte>, numTags: int, tagSet: seq<Tag>): Decoded<Option<seq<Option<Tag>>>>
  {
    var cap := PoolFor(numTags);
    match Protobuf.VarintArray(s, numTags, cap)
    case Fail(e) => Fail(e)
    case Ok(vs, n) =>
      match ElementTags(Filled(vs, cap), numTags, tagSet)
      case Crash(e) => Fail(e)
      case Rejected => Ok(None, n)
      case Resolved(ts) => Ok(Some(ts), n)
  }

  /** The index array decodeWayIndices returns: the values at its start and
      -1 right after the `n` declared ones when the array has room. */
  function Sentinel(arr: seq<short>, n: int): (r: Resolution<seq<short>>)
  {
    if n < |arr| then
      if n < 0 then Crash(OutOfBounds) else Resolved(arr[n := -1])
    else Resolved(arr)
  }

  /** decodeWayIndices on the content `s`. */
  function WayIndices(s: seq<byte>, n: int): (r: Decoded<seq<short>>)
    ensures r.Ok? ==> 0 <= n <= |r.value| && r.used <= |s|
  {
    var cap := PoolFor(n);
    match Protobuf.VarintArray(s, n, cap)
    case Fail(e) => Fail(e)
    case Ok(vs, k) =>
      match Sentinel(Filled(vs, cap), n)
      case Resolved(arr) => Ok(arr, k)
      case Rejected => Fail(OutOfBounds)
      case Crash(e) => Fail(e)
  }

  /** The index holds the decoded values first; a count below the scratch
      array's length is followed by the -1 that ends the index. */
  lemma WayIndicesSentinel(s: seq<byte>, n: int)
    requires WayIndices(s, n).Ok?
    ensures var vs := Protobuf.VarintArray(s, n, PoolFor(n));
            var arr := WayIndices(s, n).value;
            vs.Ok? && |arr| == PoolFor(n)
            && (n < POOL_SIZE ==> arr[n] == -1 && arr[..n] == Filled(vs.value, PoolFor(n))[..n])
            && (n >= POOL_SIZE ==> arr == Filled(vs.value, PoolFor(n)))
  {
    var vs := Protobuf.VarintArray(s, n, PoolFor(n));
    assert vs.Ok?;
    var f := Filled(vs.value, PoolFor(n));
    if |vs.value| > PoolFor(n) {
      Protobuf.VarintArrayBound(s, n, PoolFor(n));
    }
  }

  /** The running `coordCnt += index[i]` of an element, a Java int, over
      index[i..n). */
  function CoordCount(c: int, index: seq<short>, i: nat, n: int): int
    requires n <= |index|
    decreases n - i
  {
    if i >= n then c else CoordCount(Int32(c + index[i]), index, i + 1, n)
  }

  // ---------------------------------------------------------------------------
  // decodeTileElement

  /** The locals of decodeTileElement's loop. */
  datatype Elem = Elem(numIndices: int, numTags: int, coordCnt: int, layer: int,
                       tags: Option<seq<Option<Tag>>>, index: Option<seq<short>>,
                       geoms: Option<seq<Geom>>, position: Option<Point>)

  /** The defaults: one index entry, one tag, layer 5, and one coordinate
      pair for a point. */
  function ElemStart(kind: int): Elem {
    Elem(1, 1, if kind == TAG_TILE_POINT then 1 else 0, 5, None, None, None, None)
  }

  /** What an element adds to the tile: its ways, its point of interest,
      and whether decodeTileElement returned true. */
  datatype Emit = Emit(added: bool, ways: seq<Way>, pois: seq<Poi>)

  /** The coordinates of a point: a length that is read and ignored, then
      `count` pairs of plain varints (not deltas); the last pair is the
      position, and no pair leaves the earlier position `p`. */
  function PoiCoords(s: seq<byte>, count: int, p: Option<Point>): (r: Decoded<Option<Point>>)
    ensures r.Ok? ==> r.used <= |s|
  {
    match Varint32(s)
    case Fail(e) => Fail(e)
    case Ok(_, n) => After(n, PoiLoop(s[n..], 0, count, p))
  }

  /** Pairs i .. count-1 of the point loop on the content `s`, `p` being the
      position so far. */
  function PoiLoop(s: seq<byte>, i: int, count: int, p: Option<Point>): (r: Decoded<Option<Point>>)
    ensures r.Ok? ==> r.used <= |s|
    decreases |s|
  {
    if i >= count then Ok(p, 0)
    else
      match PoiPair(s)
      case Fail(e) => Fail(e)
      case Ok(q, u) => After(u, PoiLoop(s[u..], i + 1, count, Some(q)))
  }

  /** One pair of the point loop: an x and a y varint, each de-zigzagged. */
  function PoiPair(s: seq<byte>): (r: Decoded<Point>)
    ensures r.Ok? ==> 2 <= r.used <= |s|
  {
    match Varint32(s)
    case Fail(e) => Fail(e)
    case Ok(x, a) =>
      match Varint32(s[a..])
      case Fail(e) => Fail(e)
      case Ok(y, b) => Ok(Point(DeZigZag(x), DeZigZag(y)), a + b)
  }

  /** One sub-field of an element, tag `tag`, on the content `s` after its
      key. An unknown tag reads nothing. */
  function ElemField(s: seq<byte>, tag: int, kind: int, tagSet: seq<Tag>, e: Elem): (r: Decoded<Elem>)
    ensures r.Ok? ==> r.used <= |s|
  {
    if tag == TAG_ELEM_TAGS then
      match ElementTagsAt(s, e.numTags, tagSet)
      case Fail(err) => Fail(err)
      case Ok(ts, n) => Ok(e.(tags := ts), n)
    else if tag == TAG_ELEM_NUM_INDICES then
      match Varint32(s)
      case Fail(err) => Fail(err)
      case Ok(v, n) => Ok(e.(numIndices := v), n)
    else if tag == TAG_ELEM_NUM_TAGS then
      match Varint32(s)
      case Fail(err) => Fail(err)
      case Ok(v, n) => Ok(e.(numTags := v), n)
    else if tag == TAG_ELEM_INDEX then
      match WayIndices(s, e.numIndices)
      case Fail(err) => Fail(err)
      case Ok(index, n) =>
        Ok(e.(index := Some(index), coordCnt := CoordCount(e.coordCnt, index, 0, e.numIndices)), n)
    else if tag == TAG_ELEM_COORDS then
      if kind == TAG_TILE_LINE || kind == TAG_TILE_POLY then
        match InterleavedPoints(s, e.index, kind == TAG_TILE_POLY)
        case Fail(err) => Fail(err)
        case Ok(g, n) => Ok(e.(geoms := Some(g)), n)
      else
        match PoiCoords(s, e.coordCnt, e.position)
        case Fail(err) => Fail(err)
        case Ok(p, n) => Ok(e.(position := p), n)
    else if tag == TAG_ELEM_LAYER then
      match Varint32(s)
      case Fail(err) => Fail(err)
      case Ok(v, n) => Ok(e.(layer := v), n)
    else Ok(e, 0)
  }

  /** One turn of decodeTileElement's loop on the content `s`: a key, which
      ends the loop when zero (None), then its sub-field. */
  function ElemTurn(s: seq<byte>, kind: int, tagSet: seq<Tag>, e: Elem): (r: Decoded<Option<Elem>>)
    ensures r.Ok? ==> 1 <= r.used <= |s|
  {
    match Varint32(s)
    case Fail(err) => Fail(err)
    case Ok(val, n) =>
      if val == 0 then Ok(None, n)
      else
        match ElemField(s[n..], val / 8, kind, tagSet, e)
        case Fail(err) => Fail(err)
        case Ok(e', m) => Ok(Some(e'), n + m)
  }

  /** The loop of decodeTileElement on the content `s`, read from the int
      position `pos`: turns while `pos` is below the element's int `end`, until
      a zero key. Positions are Java ints, so they wrap at 2^31. The result
      carries the bytes read from `s`. */
  function ElementLoop(s: seq<byte>, pos: int, end: int, kind: int, tagSet: seq<Tag>, e: Elem)
    : (r: Decoded<Elem>)
    ensures r.Ok? ==> r.used <= |s|
    decreases |s|
  {
    if pos >= end then Ok(e, 0)
    else
      match ElemTurn(s, kind, tagSet, e)
      case Fail(err) => Fail(err)
      case Ok(None, n) => Ok(e, n)
      case Ok(Some(e'), n) => After(n, ElementLoop(s[n..], Int32(pos + n), end, kind, tagSet, e'))
  }

  /** One way per geometry, all with the same layer and tags. */
  function Ways(layer: int, tags: seq<Option<Tag>>, geoms: seq<Geom>): (r: seq<Way>)
    ensures |r| == |geoms|
  {
    seq(|geoms|, i requires 0 <= i < |geoms| => Way(layer, tags, geoms[i]))
  }

  /** The end of decodeTileElement: nothing without tags or with no index
      entries; otherwise the ways of a line or polygon (whose coordinates
      must have been read), or the point of interest when a position was
      read. The layer is narrowed to a byte. */
  function Emission(e: Elem, kind: int): (r: Resolution<Emit>)
  {
    if e.tags.None? || e.numIndices == 0 then Resolved(Emit(false, [], []))
    else if kind == TAG_TILE_LINE || kind == TAG_TILE_POLY then
      if e.geoms.None? then Crash(NullReference)
      else Resolved(Emit(true, Ways(Int8(e.layer), e.tags.value, e.geoms.value), []))
    else
      Resolved(Emit(true, [], if e.position.Some? then [Poi(Int8(e.layer), e.tags.value, e.position.value)]
                              else []))
  }

  /** decodeTileElement on the content `s` after the element's key, which
      starts at the int position `pos`: its byte count, the sub-field loop up
      to `end = position() + bytes` (an int sum), then the emission. */
  function Element(s: seq<byte>, pos: int, kind: int, tagSet: seq<Tag>): (r: Decoded<Emit>)
    ensures r.Ok? ==> r.used <= |s|
  {
    match Varint32(s)
    case Fail(err) => Fail(err)
    case Ok(bytes, n) =>
      var start := Int32(pos + n);
      match ElementLoop(s[n..], start, Int32(start + bytes), kind, tagSet, ElemStart(kind))
      case Fail(err) => Fail(err)
      case Ok(e, m) =>
        match Emission(e, kind)
        case Resolved(em) => Ok(em, n + m)
        case Rejected => Fail(NullReference)
        case Crash(err) => Fail(err)
  }

  /** An element without tags or without index entries adds nothing and
      reports false; otherwise a line or polygon adds one way per geometry,
      each with the element's layer and tags, and a point adds one point of
      interest exactly when a position was read. */
  lemma EmissionMeaning(e: Elem, kind: int)
    requires Emission(e, kind).Resolved?
    ensures var em := Emission(e, kind).value;
            (em.added <==> e.tags.Some? && e.numIndices != 0)
            && (!em.added ==> em.ways == [] && em.pois == [])
            && (em.added && (kind == TAG_TILE_LINE || kind == TAG_TILE_POLY) ==>
                  e.geoms.Some? && em.pois == [] && |em.ways| == |e.geoms.value|
                  && forall i :: 0 <= i < |em.ways| ==>
                       em.ways[i] == Way(Int8(e.layer), e.tags.value, e.geoms.value[i]))
            && (em.added && kind != TAG_TILE_LINE && kind != TAG_TILE_POLY ==>
                  em.ways == [] && (|em.pois| == 1 <==> e.position.Some?) && |em.pois| <= 1)
  {
  }

  /** A turn ends the sub-field loop exactly when its key is zero; any
      other key is followed by its sub-field. */
  lemma ElemTurnStops(s: seq<byte>, kind: int, tagSet: seq<Tag>, e: Elem)
    ensures forall n :: ElemTurn(s, kind, tagSet, e) == Ok(None, n) <==> Varint32(s) == Ok(0, n)
    ensures ElemTurn(s, kind, tagSet, e).Ok? && ElemTurn(s, kind, tagSet, e).value.Some? ==>
              var k := Varint32(s);
              k.Ok? && k.value != 0
              && ElemField(s[k.used..], k.value / 8, kind, tagSet, e)
                 == Ok(ElemTurn(s, kind, tagSet, e).value.value, ElemTurn(s, kind, tagSet, e).used - k.used)
  {
  }

  // ---------------------------------------------------------------------------
  // decode

  /** The locals of decode: the declared counts, the string tables and their
      fill cursors; and the fields it appends to: the tile's tag set, its
      ways and its points of interest. */
  datatype Acc = Acc(numTags: int, numKeys: int, numValues: int, curKey: int, curValue: int,
                     keys: Option<seq<Str>>, values: Option<seq<Str>>,
                     tags: seq<Tag>, ways: seq<Way>, pois: seq<Poi>)

  /** A table is allocated with its declared count, and its cursor never
      runs backwards from zero. */
  predicate AccOk(a: Acc) {
    0 <= a.curKey && 0 <= a.curValue
    && (a.keys.Some? ==> |a.keys.value| == a.numKeys)
    && (a.values.Some? ==> |a.values.value| == a.numValues)
  }

  function AccStart(): (a: Acc)
    ensures AccOk(a)
  {
    Acc(0, -1, -1, 0, 0, None, None, [], [], [])
  }

  /** The outcome of decode: the tile's ways and points, null, or an
      exception. */
  datatype Outcome = Built(ways: seq<Way>, pois: seq<Poi>) | Null | Thrown(error: Error)

  /** One turn of decode after a field's key: continue with new locals after
      `used` bytes, or return. */
  datatype Step = Next(acc: Acc, used: nat) | Stop(outcome: Outcome)

  /** A string for a table with cursor `cur` and declared count `count`:
      refused (null) without a table or once `count` strings were stored,
      otherwise stored at the cursor, which moves on. */
  function StringField(s: seq<byte>, table: Option<seq<Str>>, count: int, cur: int)
    : (r: Resolution<Decoded<seq<Str>>>)
    requires 0 <= cur && (table.Some? ==> |table.value| == count)
  {
    if table.None? || cur >= count then Rejected
    else
      match Protobuf.LengthPrefixed(s)
      case Fail(e) => Crash(e)
      case Ok(str, n) => Resolved(Ok(table.value[cur := Some(str)], n))
  }

  /** A count that allocates a table: a negative count cannot. */
  function TableField(s: seq<byte>): (r: Decoded<int>)
    ensures r.Ok? ==> r.value >= 0 && r.used <= |s|
  {
    match Varint32(s)
    case Fail(e) => Fail(e)
    case Ok(v, n) => if v < 0 then Fail(NegativeSize) else Ok(v, n)
  }

  /** The tag table: `numTags * 2` indices as a varint array into the
      scratch array, then their resolution against the string tables. */
  function TagsField(s: seq<byte>, a: Acc, t: Tables): (r: Resolution<Decoded<seq<Tag>>>)
  {
    var len := Int32(a.numTags * 2);
    var cap := PoolFor(len);
    match Protobuf.VarintArray(s, len, cap)
    case Fail(e) => Crash(e)
    case Ok(vs, n) =>
      match TileTags(Filled(vs, cap), a.numTags, a.keys, a.values, t)
      case Crash(e) => Crash(e)
      case Rejected => Rejected
      case Resolved(ts) => Resolved(Ok(ts, n))
  }

  /** Two outcomes of decode match when they are equal or both failures
      (which failure may depend on how the stream was chunked); the methods
      of Tiles are proved to match these functions. */
  predicate Matches(x: Outcome, y: Outcome) {
    x == y || (x.Thrown? && y.Thrown?)
  }

  predicate StepMatches(x: Step, y: Step) {
    x == y || (x.Stop? && x.outcome.Thrown? && y.Stop? && y.outcome.Thrown?)
  }

  /** One field of the tile, tag `tag`, on the content `s` after its key,
      which starts at the int position `pos`. */
  function TileField(s: seq<byte>, pos: int, tag: int, a: Acc, t: Tables): (r: Step)
    requires AccOk(a)
    ensures r.Next? ==> AccOk(r.acc) && r.used <= |s|
  {
    if tag == TAG_TILE_LINE || tag == TAG_TILE_POLY || tag == TAG_TILE_POINT then
      match Element(s, pos, tag, a.tags)
      case Fail(e) => Stop(Thrown(e))
      case Ok(em, n) => Next(a.(ways := a.ways + em.ways, pois := a.pois + em.pois), n)
    else if tag == TAG_TILE_TAG_KEYS then
      match StringField(s, a.keys, a.numKeys, a.curKey)
      case Crash(e) => Stop(Thrown(e))
      case Rejected => Stop(Null)
      case Resolved(d) =>
        if d.Fail? then Stop(Thrown(d.error))
        else Next(a.(keys := Some(d.value), curKey := a.curKey + 1), d.used)
    else if tag == TAG_TILE_TAG_VALUES then
      match StringField(s, a.values, a.numValues, a.curValue)
      case Crash(e) => Stop(Thrown(e))
      case Rejected => Stop(Null)
      case Resolved(d) =>
        if d.Fail? then Stop(Thrown(d.error))
        else Next(a.(values := Some(d.value), curValue := a.curValue + 1), d.used)
    else if tag == TAG_TILE_NUM_TAGS then
      match Varint32(s)
      case Fail(e) => Stop(Thrown(e))
      case Ok(v, n) => Next(a.(numTags := v), n)
    else if tag == TAG_TILE_NUM_KEYS then
      match TableField(s)
      case Fail(e) => Stop(Thrown(e))
      case Ok(v, n) => Next(a.(numKeys := v, keys := Some(seq(v, _ => None))), n)
    else if tag == TAG_TILE_NUM_VALUES then
      match TableField(s)
      case Fail(e) => Stop(Thrown(e))
      case Ok(v, n) => Next(a.(numValues := v, values := Some(seq(v, _ => None))), n)
    else if tag == TAG_TILE_TAGS then
      match TagsField(s, a, t)
      case Crash(e) => Stop(Thrown(e))
      case Rejected => Stop(Null)
      case Resolved(d) =>
        if d.Fail? then Stop(Thrown(d.error))
        else Next(a.(tags := a.tags + d.value), d.used)
    else if tag == TAG_TILE_VERSION then
      match Varint32(s)
      case Fail(e) => Stop(Thrown(e))
      case Ok(v, n) => if v != VERSION then Stop(Null) else Next(a, n)
    else Stop(Null)
  }

  /** One turn of decode on the content `s`, which starts at the int position
      `pos`: at the end of the content, or at a key that is not positive, the
      tile is built; otherwise its field. */
  function TileTurn(s: seq<byte>, pos: int, a: Acc, t: Tables): (r: Step)
    requires AccOk(a)
    ensures r.Next? ==> AccOk(r.acc) && 1 <= r.used <= |s|
  {
    if |s| == 0 then Stop(Built(a.ways, a.pois))
    else
      match Varint32(s)
      case Fail(e) => Stop(Thrown(e))
      case Ok(val, n) =>
        if val <= 0 then Stop(Built(a.ways, a.pois))
        else
          match TileField(s[n..], Int32(pos + n), val / 8, a, t)
          case Stop(o) => Stop(o)
          case Next(a', m) => Next(a', n + m)
  }

  /** The loop of decode over the tile content `s`, from the int position `pos`. */
  function TileLoop(s: seq<byte>, pos: int, a: Acc, t: Tables): Outcome
    requires AccOk(a)
    decreases |s|
  {
    match TileTurn(s, pos, a, t)
    case Stop(o) => o
    case Next(a', m) => TileLoop(s[m..], Int32(pos + m), a', t)
  }

  /** A string is refused exactly when its table was not allocated or is
      full; otherwise it is read and stored at the cursor, and every other
      entry, and the table's length, stay as they were. */
  lemma StringFieldMeaning(s: seq<byte>, table: Option<seq<Str>>, count: int, cur: int)
    requires 0 <= cur && (table.Some? ==> |table.value| == count)
    ensures StringField(s, table, count, cur).Rejected? <==> table.None? || cur >= count
    ensures StringField(s, table, count, cur).Resolved? ==>
              var d := StringField(s, table, count, cur).value;
              var str := Protobuf.LengthPrefixed(s);
              str.Ok? && d == Ok(table.value[cur := Some(str.value)], str.used)
              && |d.value| == count && d.value[cur] == Some(str.value)
              && forall i :: 0 <= i < count && i != cur ==> d.value[i] == table.value[i]
    ensures StringField(s, table, count, cur).Crash? <==>
              table.Some? && cur < count && Protobuf.LengthPrefixed(s).Fail?
  {
  }

  /** A key string makes the tile null exactly when the key table was not
      allocated or already holds its declared number of keys; a key that is
      read goes to the cursor's entry and the cursor moves on by one. Value
      strings behave the same on their own table and cursor. */
  lemma TableStringMeaning(s: seq<byte>, pos: int, a: Acc, t: Tables)
    requires AccOk(a)
    ensures TileField(s, pos, TAG_TILE_TAG_KEYS, a, t) == Stop(Null) <==> a.keys.None? || a.curKey >= a.numKeys
    ensures TileField(s, pos, TAG_TILE_TAG_VALUES, a, t) == Stop(Null)
            <==> a.values.None? || a.curValue >= a.numValues
    ensures TileField(s, pos, TAG_TILE_TAG_KEYS, a, t).Next? ==>
              var r := TileField(s, pos, TAG_TILE_TAG_KEYS, a, t);
              var str := Protobuf.LengthPrefixed(s);
              a.keys.Some? && a.curKey < a.numKeys && str.Ok? && r.used == str.used
              && r.acc == a.(keys := Some(a.keys.value[a.curKey := Some(str.value)]), curKey := a.curKey + 1)
    ensures TileField(s, pos, TAG_TILE_TAG_VALUES, a, t).Next? ==>
              var r := TileField(s, pos, TAG_TILE_TAG_VALUES, a, t);
              var str := Protobuf.LengthPrefixed(s);
              a.values.Some? && a.curValue < a.numValues && str.Ok? && r.used == str.used
              && r.acc == a.(values := Some(a.values.value[a.curValue := Some(str.value)]),
                             curValue := a.curValue + 1)
  {
    StringFieldMeaning(s, a.keys, a.numKeys, a.curKey);
    StringFieldMeaning(s, a.values, a.numValues, a.curValue);
  }

  /** A version field other than 4 makes the tile null; version 4 changes
      nothing but the position. */
  lemma VersionFieldMeaning(s: seq<byte>, pos: int, a: Acc, t: Tables)
    requires AccOk(a) && Varint32(s).Ok?
    ensures var v := Varint32(s);
            TileField(s, pos, TAG_TILE_VERSION, a, t)
            == if v.value != VERSION then Stop(Null) else Next(a, v.used)
  {
  }

  /** A field whose tag decode does not know makes the tile null, without
      reading anything after its key. */
  lemma UnknownFieldMeaning(s: seq<byte>, pos: int, tag: int, a: Acc, t: Tables)
    requires AccOk(a)
    requires tag != TAG_TILE_VERSION && tag != TAG_TILE_NUM_TAGS && tag != TAG_TILE_NUM_KEYS
             && tag != TAG_TILE_NUM_VALUES && tag != TAG_TILE_TAG_KEYS && tag != TAG_TILE_TAG_VALUES
             && tag != TAG_TILE_TAGS && tag != TAG_TILE_LINE && tag != TAG_TILE_POLY && tag != TAG_TILE_POINT
    ensures TileField(s, pos, tag, a, t) == Stop(Null)
    ensures forall s' :: TileField(s', pos, tag, a, t) == TileField(s, pos, tag, a, t)
  {
  }

  /** A turn builds the tile exactly when the content is exhausted or the
      next key is zero or negative; no field ever builds it. */
  lemma TileTurnBuilds(s: seq<byte>, pos: int, a: Acc, t: Tables)
    requires AccOk(a)
    ensures TileTurn(s, pos, a, t).Stop? && TileTurn(s, pos, a, t).outcome.Built?
            <==> |s| == 0 || (Varint32(s).Ok? && Varint32(s).value <= 0)
    ensures TileTurn(s, pos, a, t).Stop? && TileTurn(s, pos, a, t).outcome.Built? ==>
              TileTurn(s, pos, a, t).outcome == Built(a.ways, a.pois)
  {
    if |s| > 0 && Varint32(s).Ok? && Varint32(s).value > 0 {
      var n := Varint32(s).used;
      TileFieldNeverBuilds(s[n..], Int32(pos + n), Varint32(s).value / 8, a, t);
    }
  }

  /** No field of the tile returns a built tile: each continues, or makes
      the tile null, or throws. */
  lemma TileFieldNeverBuilds(s: seq<byte>, pos: int, tag: int, a: Acc, t: Tables)
    requires AccOk(a)
    ensures TileField(s, pos, tag, a, t).Next? || TileField(s, pos, tag, a, t).outcome.Null?
            || TileField(s, pos, tag, a, t).outcome.Thrown?
  {
  }

  /** decode of a response body of `contentLength` bytes of which `stream`
      holds what the connection delivers, by a decoder whose position() is
      `base` when the tile starts (setInputStream does not reset mBufferOffset,
      so positions carry on from tile to tile). A negative length reaches the
      stream's read as a negative count. */
  function Decode(stream: seq<byte>, contentLength: int, t: Tables, base: int): Outcome {
    if contentLength < 0 then Thrown(OutOfBounds)
    else TileLoop(stream[..Protobuf.Min(contentLength, |stream|)], Int32(base), AccStart(), t)
  }

  /** An element whose byte count is 2^31 - 1 puts its int end below its
      start, so its sub-field loop does not run: the bytes after it are read
      as the tile's next field. Here they are a version field of 2, so the
      tile is null (with unbounded positions they would be the element's
      index count and the tile would be built empty). */
  lemma ElementEndWraps(t: Tables)
    ensures Decode([0xA8, 0x01, 0xFF, 0xFF, 0xFF, 0xFF, 0x07, 0x08, 0x02, 0x00], 10, t, 0) == Null
  {
    var s: seq<byte> := [0xA8, 0x01, 0xFF, 0xFF, 0xFF, 0xFF, 0x07, 0x08, 0x02, 0x00];
    var a := AccStart();
    WrappedLineTurn(s, a, t);
    VersionTwoTurn(s[7..], a, t);
    assert s[..Protobuf.Min(10, |s|)] == s;
  }

  /** The first turn of that tile: key 0xA8 0x01 (a line) at position 0 and
      an element that adds nothing. */
  lemma WrappedLineTurn(s: seq<byte>, a: Acc, t: Tables)
    requires s == [0xA8, 0x01, 0xFF, 0xFF, 0xFF, 0xFF, 0x07, 0x08, 0x02, 0x00] && a == AccStart()
    ensures TileTurn(s, 0, a, t) == Next(a, 7)
  {
    hide Element, Varint32, StringField, TagsField, TableField;
    assert Groups(s[..2]) == 168 by {
      var g: seq<byte> := [0x01];
      assert Groups(g) == 1 by { assert g[1..] == []; }
      assert s[..2] == [0xA8] + g;
    }
    Varint32OfTerminated(s, 2);
    WrappedElement(s[2..]);
  }

  /** The element of that tile: its byte count 0x7FFFFFFF read from position
      2 gives the end Int32(7 + 0x7FFFFFFF) < 7. */
  lemma WrappedElement(e: seq<byte>)
    requires e == [0xFF, 0xFF, 0xFF, 0xFF, 0x07, 0x08, 0x02, 0x00]
    ensures Element(e, 2, TAG_TILE_LINE, []) == Ok(Emit(false, [], []), 5)
  {
    hide Varint32, ElemTurn;
    assert Groups(e[..5]) == 0x7FFF_FFFF by {
      var g: seq<byte> := [0x07];
      assert Groups(g) == 0x07 by { assert g[1..] == []; }
      g := [0xFF] + g;
      assert Groups(g) == 0x3FF by { assert g[1..] == [0x07]; }
      g := [0xFF] + g;
      assert Groups(g) == 0x1_FFFF by { assert g[1..] == [0xFF, 0x07]; }
      g := [0xFF] + g;
      assert Groups(g) == 0xFF_FFFF by { assert g[1..] == [0xFF, 0xFF, 0x07]; }
      g := [0xFF] + g;
      assert Groups(g) == 0x7FFF_FFFF by { assert g[1..] == [0xFF, 0xFF, 0xFF, 0x07]; }
      assert e[..5] == g;
    }
    Varint32OfTerminated(e, 5);
    assert Int32(7 + 0x7FFF_FFFF) < 7;
  }

  /** The second turn: key 0x08 (the version) with the value 2. */
  lemma VersionTwoTurn(s: seq<byte>, a: Acc, t: Tables)
    requires s == [0x08, 0x02, 0x00] && AccOk(a)
    ensures TileTurn(s, 7, a, t) == Stop(Null)
  {
    assert s == [0x08] + [0x02, 0x00];
    Varint32SingleByte(0x08, [0x02, 0x00]);
    assert s[1..] == [0x02] + [0x00];
    Varint32SingleByte(0x02, [0x00]);
  }
}
