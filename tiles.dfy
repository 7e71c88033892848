/** TileDecoder.java: the decoder of one vector tile, reading through a
    ProtobufDecoder (TileDecoder extends it; here it holds one) and appending
    to the tile's tag set, ways and points of interest.

    Every method is proved against the function of TileSpec that says what
    it computes from the undecoded content: Wire.Agrees and TileSpec.Matches
    relate the two, equal or both failures (which failure may depend on how
    the stream was chunked). Where Java's loops run past the bytes the stream
    delivered and read stale buffer bytes, both the methods and TileSpec fail
    instead. The scratch array mTmpShortArray that Java shares between
    decodeWayIndices, decodeElementTags and the tag table is a fresh array
    per call here, so a later sub-field cannot overwrite an earlier index. */
module Tiles {
  import opened Wire
  import opened Protobuf
  import opened Geometry
  import opened TileSpec

  class TileDecoder {
    const dec: ProtobufDecoder
    /** The static tables of Tags. */
    const tables: Tables
    /** curTags: the tag set of the current tile. */
    var curTags: seq<Tag>
    /** mWays and mPois: what the current tile produced so far. */
    var ways: seq<Way>
    var pois: seq<Poi>

    ghost predicate Valid()
      reads dec
    {
      dec.Valid()
    }

    function Content(): seq<byte>
      reads dec, dec.buffer
      requires Valid()
    {
      dec.Content()
    }

    constructor (t: Tables)
      ensures Valid() && fresh(dec) && tables == t
      ensures curTags == [] && ways == [] && pois == []
    {
      dec := new ProtobufDecoder();
      tables := t;
      curTags, ways, pois := [], [], [];
    }

    /** decode: reset the stream to the tile's content and run the field
        loop until the content ends or a key is not positive. */
    method Decode(stream: seq<byte>, contentLength: int) returns (r: Outcome)
      requires Valid()
      modifies this, dec, dec.buffer
      ensures Valid()
      ensures Matches(r, TileSpec.Decode(stream, contentLength, tables, old(dec.bufferOffset)))
      ensures r.Built? ==> ways == r.ways && pois == r.pois
    {
      hide TileLoop, TileTurn;
      ways, pois := [], [];
      if contentLength < 0 {
        return Thrown(OutOfBounds);
      }
      dec.SetInputStream(stream, contentLength);
      curTags := [];
      var a := AccStart();
      while true
        invariant Valid() && AccOk(a) && (dec.buffer == old(dec.buffer) || fresh(dec.buffer))
        invariant a.tags == curTags && a.ways == ways && a.pois == pois
        invariant TileLoop(Content(), Int32(dec.Position()), a, tables)
                  == TileSpec.Decode(stream, contentLength, tables, old(dec.bufferOffset))
        decreases |Content()|
      {
        ghost var s, p := Content(), dec.Position();
        var st := DecodeTurn(a);
        if st.Stop? {
          TileLoopStop(s, Int32(p), a, tables, st);
          return st.outcome;
        }
        TileLoopNext(s, Int32(p), a, tables, st, Content());
        Int32Shift(p, st.used);
        a := st.acc;
      }
    }

    /** One turn of decode's loop: hasData, the key, and its field. */
    method DecodeTurn(a: Acc) returns (st: Step)
      requires Valid() && AccOk(a) && a.tags == curTags && a.ways == ways && a.pois == pois
      modifies this, dec, dec.buffer
      ensures Valid() && (dec.buffer == old(dec.buffer) || fresh(dec.buffer))
      ensures StepMatches(st, TileTurn(old(Content()), Int32(old(dec.Position())), a, tables))
      ensures st.Next? ==> Content() == old(Content())[st.used..] && dec.Position() == old(dec.Position()) + st.used
                           && st.acc.tags == curTags && st.acc.ways == ways && st.acc.pois == pois
      ensures st.Stop? && st.outcome.Built? ==> st.outcome.ways == ways && st.outcome.pois == pois
    {
      hide TileTurn, TileField, Varint32, ProtobufDecoder.Content, ProtobufDecoder.Window, ProtobufDecoder.Pending;
      ghost var c0, p0 := Content(), dec.Position();
      TileTurnCases(c0, Int32(p0), a, tables);
      var more := dec.HasData();
      if !more {
        return Stop(Built(ways, pois));
      }
      var v := dec.DecodeVarint32();
      if v.Fail? {
        return Stop(Thrown(v.error));
      }
      if v.value <= 0 {
        return Stop(Built(ways, pois));
      }
      Int32Shift(p0, v.used);
      ghost var c1 := Content();
      var f := DecodeField(v.value / 8, a);
      StepShift(f, TileField(c1, Int32(p0 + v.used), v.value / 8, a, tables), v.used);
      if f.Stop? {
        return f;
      }
      st := Next(f.acc, v.used + f.used);
      DropDrop(c0, v.used, f.used);
    }

    /** One arm of decode's switch, on the field with tag `tag`. */
    method DecodeField(tag: int, a: Acc) returns (st: Step)
      requires Valid() && AccOk(a) && a.tags == curTags && a.ways == ways && a.pois == pois
      modifies this, dec, dec.buffer
      ensures Valid() && (dec.buffer == old(dec.buffer) || fresh(dec.buffer))
      ensures st.Stop? ==> !st.outcome.Built?
      ensures StepMatches(st, TileField(old(Content()), Int32(old(dec.Position())), tag, a, tables))
      ensures st.Next? ==> Content() == old(Content())[st.used..] && dec.Position() == old(dec.Position()) + st.used
                           && st.acc.tags == curTags && st.acc.ways == ways && st.acc.pois == pois
    {
      hide Element, StringField, TagsField, Varint32, ProtobufDecoder.Content, ProtobufDecoder.Window, ProtobufDecoder.Pending;
      if tag == TAG_TILE_LINE || tag == TAG_TILE_POLY || tag == TAG_TILE_POINT {
        var em := DecodeTileElement(tag);
        if em.Fail? {
          return Stop(Thrown(em.error));
        }
        return Next(a.(ways := ways, pois := pois), em.used);
      } else if tag == TAG_TILE_TAG_KEYS || tag == TAG_TILE_TAG_VALUES {
        st := DecodeStringField(tag, a);
      } else if tag == TAG_TILE_NUM_TAGS || tag == TAG_TILE_NUM_KEYS || tag == TAG_TILE_NUM_VALUES
             || tag == TAG_TILE_VERSION {
        st := DecodeCountField(tag, a);
      } else if tag == TAG_TILE_TAGS {
        st := DecodeTagsField(a);
      } else {
        st := Stop(Null);
      }
    }

    /** A key or value string: refused unless its table was allocated and
        has room, otherwise stored at the cursor. */
    method DecodeStringField(tag: int, a: Acc) returns (st: Step)
      requires Valid() && AccOk(a) && a.tags == curTags && a.ways == ways && a.pois == pois
      requires tag == TAG_TILE_TAG_KEYS || tag == TAG_TILE_TAG_VALUES
      modifies dec, dec.buffer
      ensures Valid() && (dec.buffer == old(dec.buffer) || fresh(dec.buffer))
      ensures st == TileField(old(Content()), Int32(old(dec.Position())), tag, a, tables)
      ensures st.Next? ==> Content() == old(Content())[st.used..] && dec.Position() == old(dec.Position()) + st.used
                           && st.acc.tags == curTags && st.acc.ways == ways && st.acc.pois == pois
    {
      hide Element, TagsField, TableField, LengthPrefixed, Varint32;
      var keys := tag == TAG_TILE_TAG_KEYS;
      var table, count, cur := if keys then a.keys else a.values, if keys then a.numKeys else a.numValues,
                               if keys then a.curKey else a.curValue;
      if table.None? || cur >= count {
        return Stop(Null);
      }
      var str := dec.DecodeString();
      if str.Fail? {
        return Stop(Thrown(str.error));
      }
      var stored := Some(table.value[cur := Some(str.value)]);
      if keys {
        st := Next(a.(keys := stored, curKey := cur + 1), str.used);
      } else {
        st := Next(a.(values := stored, curValue := cur + 1), str.used);
      }
    }

    /** A varint field: the tag count, a table count (allocating its table),
        or the version, which must be 4. */
    method DecodeCountField(tag: int, a: Acc) returns (st: Step)
      requires Valid() && AccOk(a)
      requires tag == TAG_TILE_NUM_TAGS || tag == TAG_TILE_NUM_KEYS || tag == TAG_TILE_NUM_VALUES
               || tag == TAG_TILE_VERSION
      modifies dec, dec.buffer
      ensures Valid() && (dec.buffer == old(dec.buffer) || fresh(dec.buffer))
      ensures st == TileField(old(Content()), Int32(old(dec.Position())), tag, a, tables)
      ensures st.Next? ==> Content() == old(Content())[st.used..] && dec.Position() == old(dec.Position()) + st.used
                           && st.acc.tags == a.tags
                           && st.acc.ways == a.ways && st.acc.pois == a.pois
    {
      hide Element, StringField, TagsField, Varint32;
      var v := dec.DecodeVarint32();
      if v.Fail? {
        return Stop(Thrown(v.error));
      }
      if tag == TAG_TILE_NUM_TAGS {
        st := Next(a.(numTags := v.value), v.used);
      } else if tag == TAG_TILE_VERSION {
        st := if v.value != VERSION then Stop(Null) else Next(a, v.used);
      } else if v.value < 0 {
        st := Stop(Thrown(NegativeSize));
      } else if tag == TAG_TILE_NUM_KEYS {
        st := Next(a.(numKeys := v.value, keys := Some(seq(v.value, _ => None))), v.used);
      } else {
        st := Next(a.(numValues := v.value, values := Some(seq(v.value, _ => None))), v.used);
      }
    }

    /** The tag table: `numTags * 2` indices into a scratch array, then
        decodeTileTags; refused tags make decode return null. */
    method DecodeTagsField(a: Acc) returns (st: Step)
      requires Valid() && AccOk(a) && a.tags == curTags && a.ways == ways && a.pois == pois
      modifies this, dec, dec.buffer
      ensures Valid() && (dec.buffer == old(dec.buffer) || fresh(dec.buffer))
      ensures StepMatches(st, TileField(old(Content()), Int32(old(dec.Position())), TAG_TILE_TAGS, a, tables))
      ensures st.Next? ==> Content() == old(Content())[st.used..] && dec.Position() == old(dec.Position()) + st.used
                           && st.acc.tags == curTags && st.acc.ways == ways && st.acc.pois == pois
    {
      hide Element, StringField, TableField, TileTags, TagPairs, Protobuf.VarintArray, Varint32;
      var len := Int32(a.numTags * 2);
      var idx := new short[PoolFor(len)](_ => 0);
      var vs := dec.DecodeVarintArray(len, idx);
      if vs.Fail? {
        return Stop(Thrown(vs.error));
      }
      FilledArray(idx[..], vs.value, PoolFor(len));
      var res := DecodeTileTags(a.numTags, idx, a.keys, a.values);
      if res.Crash? {
        return Stop(Thrown(res.error));
      }
      if res.Rejected? {
        return Stop(Null);
      }
      st := Next(a.(tags := curTags), vs.used);
    }

    /** decodeTileTags: pair i of `tagIdx` resolved to a tag and appended to
        the tag set, until a pair is refused. */
    method DecodeTileTags(numTags: int, tagIdx: array<short>, keys: Option<seq<Str>>, vals: Option<seq<Str>>)
      returns (r: Resolution<seq<Tag>>)
      requires Int32(numTags * 2) <= tagIdx.Length
      modifies this
      ensures r == TileTags(tagIdx[..], numTags, keys, vals, tables)
      ensures r.Resolved? ==> curTags == old(curTags) + r.value
      ensures ways == old(ways) && pois == old(pois)
    {
      hide ResolveIndex, TagPairs;
      ghost var idx := tagIdx[..];
      ghost var n := PairCount(numTags);
      var len := Int32(numTags * 2);
      PairCountLength(numTags);
      var acc: seq<Tag> := [];
      var i := 0;
      ghost var j := 0;
      PrependNil(TagPairs(idx, 0, n, keys, vals, tables));
      while i < len
        invariant 0 <= j <= n && i == 2 * j && (i < len ==> j < n)
        invariant curTags == old(curTags) + acc && ways == old(ways) && pois == old(pois)
        invariant Prepend(acc, TagPairs(idx, j, n, keys, vals, tables)) == TileTags(idx, numTags, keys, vals, tables)
        decreases len - i
      {
        TagPairsUnfold(idx, j, n, keys, vals, tables);
        var k := ResolveIndex(tagIdx[i], tables.keys, tables.maxKey, keys, tables.attribOffset);
        if !k.Resolved? {
          return if k.Rejected? then Rejected else Crash(k.error);
        }
        var v := ResolveIndex(tagIdx[i + 1], tables.values, tables.maxValue, vals, tables.attribOffset);
        if !v.Resolved? {
          return if v.Rejected? then Rejected else Crash(v.error);
        }
        var tag := Tag(k.value, v.value);
        PrependStep(acc, tag, TagPairs(idx, j + 1, n, keys, vals, tables));
        curTags := curTags + [tag];
        acc := acc + [tag];
        i := i + 2;
        j := j + 1;
      }
      TagPairsEnd(idx, n, keys, vals, tables);
      assert acc + [] == acc;
      return Resolved(acc);
    }

    /** decodeTileElement with key `kind` (21 line, 22 polygon, 23 point):
        the byte count, the sub-field loop while the read position is before
        the element's end, then the ways or the point it adds. */
    method DecodeTileElement(kind: int) returns (r: Decoded<Emit>)
      requires Valid()
      modifies this, dec, dec.buffer
      ensures Valid() && (dec.buffer == old(dec.buffer) || fresh(dec.buffer)) && curTags == old(curTags)
      ensures Agrees(r, Element(old(Content()), Int32(old(dec.Position())), kind, old(curTags)))
      ensures r.Ok? ==> Content() == old(Content())[r.used..] && dec.Position() == old(dec.Position()) + r.used
                        && ways == old(ways) + r.value.ways && pois == old(pois) + r.value.pois
    {
      hide Element, ElementLoop, ElemTurn, ElemField, Varint32, ProtobufDecoder.Content, ProtobufDecoder.Window, ProtobufDecoder.Pending;
      ghost var c0, p0 := Content(), dec.Position();
      ElementCases(c0, Int32(p0), kind, curTags);
      var b := dec.DecodeVarint32();
      if b.Fail? {
        return Fail(b.error);
      }
      Int32Shift(p0, b.used);
      var bytes := b.value;
      var f := DecodeSubFields(kind, bytes);
      if f.Fail? {
        return Fail(f.error);
      }
      var e := f.value;
      var used := b.used + f.used;
      DropDrop(c0, b.used, f.used);
      if e.tags.None? || e.numIndices == 0 {
        return Ok(Emit(false, [], []), used);
      }
      var layer := Int8(e.layer);
      if kind == TAG_TILE_LINE || kind == TAG_TILE_POLY {
        if e.geoms.None? {
          return Fail(NullReference);
        }
        AddWays(layer, e.tags.value, e.geoms.value);
        r := Ok(Emit(true, Ways(layer, e.tags.value, e.geoms.value), []), used);
      } else {
        var added: seq<Poi> := [];
        if e.position.Some? {
          added := [Poi(layer, e.tags.value, e.position.value)];
          pois := pois + added;
        }
        r := Ok(Emit(true, [], added), used);
      }
    }

    /** The loop of decodeTileElement: sub-fields while the read position is
        before the end of the element's `bytes` bytes, until a zero key. */
    method DecodeSubFields(kind: int, bytes: int) returns (r: Decoded<Elem>)
      requires Valid()
      modifies dec, dec.buffer
      ensures Valid() && (dec.buffer == old(dec.buffer) || fresh(dec.buffer))
      ensures Agrees(r, ElementLoop(old(Content()), Int32(old(dec.Position())),
                                    Int32(Int32(old(dec.Position())) + bytes), kind, curTags, ElemStart(kind)))
      ensures r.Ok? ==> Content() == old(Content())[r.used..] && dec.Position() == old(dec.Position()) + r.used
    {
      hide ElementLoop, ElemTurn, ProtobufDecoder.Content, ProtobufDecoder.Window, ProtobufDecoder.Pending;
      ghost var p0 := dec.Position();
      var end := Int32(Int32(dec.Position()) + bytes);
      var e := ElemStart(kind);
      ghost var c := Content();
      ghost var goal := ElementLoop(c, Int32(p0), end, kind, curTags, e);
      var done: nat := 0;
      AfterZero(goal);
      while Int32(dec.Position()) < end
        invariant Valid() && (dec.buffer == old(dec.buffer) || fresh(dec.buffer))
        invariant done <= |c| && Content() == c[done..] && dec.Position() == p0 + done
        invariant After(done, ElementLoop(Content(), Int32(dec.Position()), end, kind, curTags, e)) == goal
        decreases |Content()|
      {
        ghost var s, pos := Content(), Int32(dec.Position());
        var t := DecodeElemTurn(kind, e);
        if t.Fail? {
          ElementLoopFail(s, done, pos, end, kind, curTags, e, t);
          return Fail(t.error);
        }
        DropDrop(c, done, t.used);
        if t.value.None? {
          ElementLoopZero(s, done, pos, end, kind, curTags, e, t);
          return Ok(e, done + t.used);
        }
        ElementLoopAdvance(s, done, pos, end, kind, curTags, e, t, Content());
        Int32Shift(p0 + done, t.used);
        e := t.value.value;
        done := done + t.used;
      }
      ElementLoopDone(Content(), done, Int32(dec.Position()), end, kind, curTags, e);
      r := Ok(e, done);
    }

    /** One turn of decodeTileElement's loop: a key, then (unless it is zero)
        its sub-field. */
    method DecodeElemTurn(kind: int, e: Elem) returns (r: Decoded<Option<Elem>>)
      requires Valid()
      modifies dec, dec.buffer
      ensures Valid() && (dec.buffer == old(dec.buffer) || fresh(dec.buffer))
      ensures Agrees(r, ElemTurn(old(Content()), kind, curTags, e))
      ensures r.Ok? ==> 1 <= r.used && Content() == old(Content())[r.used..] && dec.Position() == old(dec.Position()) + r.used
    {
      hide ElemField, Varint32, ProtobufDecoder.Content, ProtobufDecoder.Window, ProtobufDecoder.Pending;
      ghost var c0 := Content();
      var v := dec.DecodeVarint32();
      if v.Fail? {
        return Fail(v.error);
      }
      if v.value == 0 {
        return Ok(None, v.used);
      }
      var f := DecodeElemField(v.value / 8, kind, e);
      if f.Fail? {
        return Fail(f.error);
      }
      r := Ok(Some(f.value), v.used + f.used);
      DropDrop(c0, v.used, f.used);
    }

    /** `for (LatLong[][] g : geoms) mWays.add(...)`. */
    method AddWays(layer: int, tags: seq<Option<Tag>>, geoms: seq<Geom>)
      modifies this
      ensures ways == old(ways) + Ways(layer, tags, geoms)
      ensures curTags == old(curTags) && pois == old(pois)
    {
      for i := 0 to |geoms|
        invariant ways == old(ways) + Ways(layer, tags, geoms[..i])
        invariant curTags == old(curTags) && pois == old(pois)
      {
        assert Ways(layer, tags, geoms[..i + 1]) == Ways(layer, tags, geoms[..i]) + [Way(layer, tags, geoms[i])];
        ways := ways + [Way(layer, tags, geoms[i])];
      }
      assert geoms[..|geoms|] == geoms;
    }

    /** One arm of decodeTileElement's switch, on the sub-field `tag`. */
    method DecodeElemField(tag: int, kind: int, e: Elem) returns (r: Decoded<Elem>)
      requires Valid()
      modifies dec, dec.buffer
      ensures dec.buffer == old(dec.buffer) || fresh(dec.buffer)
      ensures Valid()
      ensures Agrees(r, ElemField(old(Content()), tag, kind, curTags, e))
      ensures r.Ok? ==> Content() == old(Content())[r.used..] && dec.Position() == old(dec.Position()) + r.used
    {
      if tag == TAG_ELEM_TAGS {
        var ts := DecodeElementTags(e.numTags);
        if ts.Fail? {
          return Fail(ts.error);
        }
        r := Ok(e.(tags := ts.value), ts.used);
      } else if tag == TAG_ELEM_NUM_INDICES || tag == TAG_ELEM_NUM_TAGS || tag == TAG_ELEM_LAYER {
        var v := dec.DecodeVarint32();
        if v.Fail? {
          return Fail(v.error);
        }
        r := if tag == TAG_ELEM_NUM_INDICES then Ok(e.(numIndices := v.value), v.used)
             else if tag == TAG_ELEM_NUM_TAGS then Ok(e.(numTags := v.value), v.used)
             else Ok(e.(layer := v.value), v.used);
      } else if tag == TAG_ELEM_INDEX {
        var index := DecodeWayIndices(e.numIndices);
        if index.Fail? {
          return Fail(index.error);
        }
        var cnt := SumIndex(e.coordCnt, index.value, e.numIndices);
        r := Ok(e.(index := Some(index.value), coordCnt := cnt), index.used);
      } else if tag == TAG_ELEM_COORDS {
        if kind == TAG_TILE_LINE || kind == TAG_TILE_POLY {
          var g := DecodeInterleavedPoints(e.index, kind == TAG_TILE_POLY);
          if g.Fail? {
            return Fail(g.error);
          }
          r := Ok(e.(geoms := Some(g.value)), g.used);
        } else {
          var p := DecodePoiCoords(e.coordCnt, e.position);
          if p.Fail? {
            return Fail(p.error);
          }
          r := Ok(e.(position := p.value), p.used);
        }
      } else {
        r := Ok(e, 0);
      }
    }

    /** The coordinates of a point: a length that is ignored, then `count`
        pairs of de-zigzagged varints, the last of which is the position. */
    method DecodePoiCoords(count: int, p: Option<Point>) returns (r: Decoded<Option<Point>>)
      requires Valid()
      modifies dec, dec.buffer
      ensures Valid() && (dec.buffer == old(dec.buffer) || fresh(dec.buffer))
      ensures r == PoiCoords(old(Content()), count, p)
      ensures r.Ok? ==> Content() == old(Content())[r.used..] && dec.Position() == old(dec.Position()) + r.used
    {
      hide PoiLoop, PoiPair, Varint32;
      ghost var c0 := Content();
      var len := dec.DecodeVarint32();
      if len.Fail? {
        return Fail(len.error);
      }
      var ps := DecodePoiPairs(count, p);
      if ps.Fail? {
        return Fail(ps.error);
      }
      r := Ok(ps.value, len.used + ps.used);
      assert c0[len.used..][ps.used..] == c0[r.used..];
    }

    /** The loop over the `count` coordinate pairs of a point. */
    method DecodePoiPairs(count: int, p: Option<Point>) returns (r: Decoded<Option<Point>>)
      requires Valid()
      modifies dec, dec.buffer
      ensures Valid() && (dec.buffer == old(dec.buffer) || fresh(dec.buffer))
      ensures r == PoiLoop(old(Content()), 0, count, p)
      ensures r.Ok? ==> Content() == old(Content())[r.used..] && dec.Position() == old(dec.Position()) + r.used
    {
      hide *;
      ghost var c := Content();
      var start := dec.Position();
      var position := p;
      var i := 0;
      ghost var done: nat := 0;
      AfterZero(PoiLoop(c, 0, count, p));
      while i < count
        invariant Valid() && (dec.buffer == old(dec.buffer) || fresh(dec.buffer))
        invariant done <= |c| && Content() == c[done..] && dec.Position() == start + done
        invariant After(done, PoiLoop(Content(), i, count, position)) == PoiLoop(c, 0, count, p)
        decreases count - i
      {
        ghost var s := Content();
        var q := DecodePoiPair();
        if q.Fail? {
          PoiLoopFail(s, done, i, count, position, q);
          return Fail(q.error);
        }
        PoiLoopAdvance(s, done, i, count, position, q, Content());
        DropDrop(c, done, q.used);
        position := Some(q.value);
        i := i + 1;
        done := done + q.used;
      }
      PoiLoopDone(Content(), done, i, count, position);
      r := Ok(position, dec.Position() - start);
    }

    /** One turn of the point coordinate loop: an x and a y varint. */
    method DecodePoiPair() returns (r: Decoded<Point>)
      requires Valid()
      modifies dec, dec.buffer
      ensures Valid() && (dec.buffer == old(dec.buffer) || fresh(dec.buffer))
      ensures r == PoiPair(old(Content()))
      ensures r.Ok? ==> Content() == old(Content())[r.used..] && dec.Position() == old(dec.Position()) + r.used
    {
      ghost var c0 := Content();
      var x := dec.DecodeVarint32();
      if x.Fail? {
        return Fail(x.error);
      }
      var y := dec.DecodeVarint32();
      if y.Fail? {
        return Fail(y.error);
      }
      var used := x.used + y.used;
      r := Ok(Point(DeZigZag(x.value), DeZigZag(y.value)), used);
      assert c0[x.used..][y.used..] == c0[r.used..];
    }

    /** The loop `coordCnt += index[i]` over the `n` declared entries. */
    static method SumIndex(c: int, index: seq<short>, n: int) returns (cnt: int)
      requires n <= |index|
      ensures cnt == CoordCount(c, index, 0, n)
      ensures IsInt32(c) ==> IsInt32(cnt)
    {
      cnt := c;
      var i := 0;
      while i < n
        invariant 0 <= i && (i <= n || n < 0) && CoordCount(cnt, index, i, n) == CoordCount(c, index, 0, n)
        invariant IsInt32(c) ==> IsInt32(cnt)
        decreases n - i
      {
        cnt := Int32(cnt + index[i]);
        i := i + 1;
      }
    }

    /** decodeWayIndices: `n` ring counts into a scratch array, ended by -1
        when the array has room for it. */
    method DecodeWayIndices(n: int) returns (r: Decoded<seq<short>>)
      requires Valid()
      modifies dec, dec.buffer
      ensures dec.buffer == old(dec.buffer) || fresh(dec.buffer)
      ensures Valid() && Agrees(r, WayIndices(old(Content()), n))
      ensures r.Ok? ==> Content() == old(Content())[r.used..] && dec.Position() == old(dec.Position()) + r.used
    {
      var index := new short[PoolFor(n)](_ => 0);
      var vs := dec.DecodeVarintArray(n, index);
      if vs.Fail? {
        return Fail(vs.error);
      }
      FilledArray(index[..], vs.value, PoolFor(n));
      if n < index.Length {
        if n < 0 {
          return Fail(OutOfBounds);
        }
        index[n] := -1;
      }
      r := Ok(index[..], vs.used);
    }

    /** decodeElementTags: `numTags` ids into a scratch array, then their
        lookup in the tag set; null (None) when an id is out of range. */
    method DecodeElementTags(numTags: int) returns (r: Decoded<Option<seq<Option<Tag>>>>)
      requires Valid()
      modifies dec, dec.buffer
      ensures dec.buffer == old(dec.buffer) || fresh(dec.buffer)
      ensures Valid() && Agrees(r, ElementTagsAt(old(Content()), numTags, curTags))
      ensures r.Ok? ==> Content() == old(Content())[r.used..] && dec.Position() == old(dec.Position()) + r.used
    {
      hide Protobuf.VarintArray, ElementTags, ProtobufDecoder.Content, ProtobufDecoder.Window, ProtobufDecoder.Pending;
      var tagIds := new short[PoolFor(numTags)](_ => 0);
      var vs := dec.DecodeVarintArray(numTags, tagIds);
      if vs.Fail? {
        return Fail(vs.error);
      }
      FilledArray(tagIds[..], vs.value, PoolFor(numTags));
      var res := LookupTags(tagIds, numTags);
      match res
      case Crash(e) => r := Fail(e);
      case Rejected => r := Ok(None, vs.used);
      case Resolved(ts) => r := Ok(Some(ts), vs.used);
    }

    /** The lookup loop of decodeElementTags: `tags[i] = curTags.tags[idx]`
        for each id, refusing an id below 0 or above the tag count. */
    method LookupTags(ids: array<short>, numTags: int) returns (r: Resolution<seq<Option<Tag>>>)
      requires numTags <= ids.Length
      ensures r == ElementTags(ids[..], numTags, curTags)
    {
      if numTags <= 0 {
        return Crash(OutOfBounds);
      }
      var tags := new Option<Tag>[numTags](_ => None);
      var tagSet := curTags;
      var max := |tagSet|;
      for i := 0 to numTags
        invariant forall j :: 0 <= j < i ==> 0 <= ids[j] <= max && tags[j] == TagAt(tagSet, ids[j] as nat)
      {
        var idx := ids[i];
        if idx < 0 || idx > max {
          assert !(0 <= ids[..][i] <= |tagSet|);
          return Rejected;
        }
        tags[i] := if idx < max then Some(tagSet[idx]) else None;
      }
      ghost var idv := ids[..];
      assert forall j :: 0 <= j < numTags ==> 0 <= idv[j] <= |tagSet|;
      assert tags[..] == seq(numTags, j requires 0 <= j < numTags => TagAt(tagSet, idv[j] as nat));
      r := Resolved(tags[..]);
    }

    /** decodeInterleavedPoints: the byte count, a refill of that many bytes,
        the partition of the index (a null index is dereferenced; an empty
        partition fails on its first geometry), then the coordinate loop
        over the buffer, after which the read position moves past the
        declared bytes. */
    method DecodeInterleavedPoints(index: Option<seq<short>>, poly: bool) returns (r: Decoded<seq<Geom>>)
      requires Valid()
      modifies dec, dec.buffer
      ensures dec.buffer == old(dec.buffer) || fresh(dec.buffer)
      ensures Valid() && Agrees(r, InterleavedPoints(old(Content()), index, poly))
      ensures r.Ok? ==> Content() == old(Content())[r.used..] && dec.Position() == old(dec.Position()) + r.used
    {
      hide PointsLoop, CoordLoop, FillGeoms, Varint32, Partition, WellShaped, ProtobufDecoder.Valid, ProtobufDecoder.Window, ProtobufDecoder.Pending;
      ghost var c0 := Content();
      var b := dec.DecodeVarint32();
      if b.Fail? {
        return Fail(b.error);
      }
      var bytes := b.value;
      BufferBytes(bytes);
      if index.None? {
        return Fail(NullReference);
      }
      var shape := PartitionIndex(index.value, poly);
      if shape == [] {
        return Fail(OutOfBounds);
      }
      PartitionShape(index.value, 0, poly);
      var g := ScanBuffered(bytes, shape, poly);
      if g.Fail? {
        return Fail(g.error);
      }
      r := Ok(g.value, b.used + g.used);
      assert c0[b.used..][g.used..] == c0[r.used..];
    }

    /** readBuffer(bytes) in decodeInterleavedPoints, whose result is
        ignored: afterwards the buffer holds the declared bytes or all of the
        content. */
    method BufferBytes(bytes: int)
      requires Valid()
      modifies dec, dec.buffer
      ensures Valid() && (dec.buffer == old(dec.buffer) || fresh(dec.buffer))
      ensures Content() == old(Content()) && dec.Position() == old(dec.Position())
      ensures bytes <= |dec.Window()| || dec.Pending() == []
    {
      var _ := dec.ReadBuffer(bytes);
    }

    /** The coordinate loop of decodeInterleavedPoints over the buffer, which
        holds the `bytes` declared bytes or all of the content, then the move
        of the read position past them. */
    method ScanBuffered(bytes: int, shape: seq<seq<nat>>, poly: bool) returns (g: Decoded<seq<Geom>>)
      requires Valid() && WellShaped(shape, poly) && shape != []
      requires bytes <= |dec.Window()| || dec.Pending() == []
      modifies dec
      ensures Valid() && dec.buffer == old(dec.buffer)
      ensures Agrees(g, PointsLoop(old(Content()), bytes, shape, poly))
      ensures g.Ok? ==> Content() == old(Content())[g.used..] && dec.Position() == old(dec.Position()) + g.used
    {
      ghost var w, p := dec.Window(), dec.Pending();
      g := ScanPoints(dec.buffer, dec.bufferPos, dec.bufferFill, bytes, shape, poly);
      PointsLoopWindow(w, p, bytes, shape, poly);
      if g.Ok? {
        dec.Advance(bytes);
      }
    }
  }

  /** A fresh zeroed array after decodeVarintArray stored `vs` at its start. */
  lemma FilledArray(a: seq<short>, vs: seq<short>, cap: int)
    requires |vs| <= |a| == cap && a[..|vs|] == vs && forall i :: |vs| <= i < |a| ==> a[i] == 0
    ensures a == Filled(vs, cap)
  {
  }

  lemma AfterZero<T>(r: Decoded<T>)
    ensures After(0, r) == r
  {
  }

  lemma AfterAfter<T>(a: nat, b: nat, r: Decoded<T>)
    ensures After(a, After(b, r)) == After(a + b, r)
  {
  }

  /** Matching steps stay matching once the key's `n` bytes are counted in. */
  lemma StepShift(x: Step, y: Step, n: nat)
    requires StepMatches(x, y)
    ensures StepMatches(if x.Stop? then x else Next(x.acc, n + x.used), if y.Stop? then y else Next(y.acc, n + y.used))
  {
  }

  /** The cases of decodeTileElement: the byte count, the sub-field loop, and
      what the element adds. */
  lemma ElementCases(s: seq<byte>, pos: int, kind: int, tagSet: seq<Tag>)
    ensures Varint32(s).Fail? ==> Element(s, pos, kind, tagSet) == Fail(Varint32(s).error)
    ensures Varint32(s).Ok? ==>
              var n := Varint32(s).used;
              var start := Int32(pos + n);
              var l := ElementLoop(s[n..], start, Int32(start + Varint32(s).value), kind, tagSet, ElemStart(kind));
              && (l.Fail? ==> Element(s, pos, kind, tagSet) == Fail(l.error))
              && (l.Ok? ==> Element(s, pos, kind, tagSet) == match Emission(l.value, kind)
                              case Resolved(em) => Ok(em, n + l.used)
                              case Rejected => Fail(NullReference)
                              case Crash(err) => Fail(err))
  {
    hide ElementLoop, Emission, Varint32;
  }

  /** The cases of one turn of decode's loop, one per branch of its body. */
  lemma TileTurnCases(s: seq<byte>, pos: int, a: Acc, t: Tables)
    requires AccOk(a)
    ensures |s| == 0 ==> TileTurn(s, pos, a, t) == Stop(Built(a.ways, a.pois))
    ensures |s| > 0 && Varint32(s).Fail? ==> TileTurn(s, pos, a, t) == Stop(Thrown(Varint32(s).error))
    ensures |s| > 0 && Varint32(s).Ok? && Varint32(s).value <= 0 ==> TileTurn(s, pos, a, t) == Stop(Built(a.ways, a.pois))
    ensures |s| > 0 && Varint32(s).Ok? && Varint32(s).value > 0 ==>
              var n := Varint32(s).used;
              var f := TileField(s[n..], Int32(pos + n), Varint32(s).value / 8, a, t);
              TileTurn(s, pos, a, t) == if f.Stop? then f else Next(f.acc, n + f.used)
  {
    hide TileField, Varint32;
  }

  /** A turn of decode's loop that returns decides the outcome. */
  lemma TileLoopStop(s: seq<byte>, pos: int, a: Acc, t: Tables, st: Step)
    requires AccOk(a) && st.Stop? && StepMatches(st, TileTurn(s, pos, a, t))
    ensures Matches(st.outcome, TileLoop(s, pos, a, t))
  {
    hide TileTurn;
  }

  /** A turn of decode's loop that continues leaves the loop on the rest of
      the content. */
  lemma TileLoopNext(s: seq<byte>, pos: int, a: Acc, t: Tables, st: Step, rest: seq<byte>)
    requires AccOk(a) && st.Next? && StepMatches(st, TileTurn(s, pos, a, t)) && rest == s[st.used..]
    ensures TileLoop(s, pos, a, t) == TileLoop(rest, Int32(pos + st.used), st.acc, t)
  {
    hide TileTurn;
  }

  lemma ElementLoopFail(s: seq<byte>, n: nat, pos: int, end: int, kind: int, tagSet: seq<Tag>, e: Elem,
                        q: Decoded<Option<Elem>>)
    requires pos < end && q.Fail? && Agrees(q, ElemTurn(s, kind, tagSet, e))
    ensures After(n, ElementLoop(s, pos, end, kind, tagSet, e)).Fail?
  {
  }

  lemma ElementLoopZero(s: seq<byte>, n: nat, pos: int, end: int, kind: int, tagSet: seq<Tag>, e: Elem,
                        q: Decoded<Option<Elem>>)
    requires pos < end && q.Ok? && q.value.None? && Agrees(q, ElemTurn(s, kind, tagSet, e))
    ensures After(n, ElementLoop(s, pos, end, kind, tagSet, e)) == Ok(e, n + q.used)
  {
  }

  lemma ElementLoopAdvance(s: seq<byte>, n: nat, pos: int, end: int, kind: int, tagSet: seq<Tag>, e: Elem,
                           q: Decoded<Option<Elem>>, rest: seq<byte>)
    requires pos < end && q.Ok? && q.value.Some? && Agrees(q, ElemTurn(s, kind, tagSet, e)) && rest == s[q.used..]
    ensures After(n, ElementLoop(s, pos, end, kind, tagSet, e))
            == After(n + q.used, ElementLoop(rest, Int32(pos + q.used), end, kind, tagSet, q.value.value))
  {
    hide ElemTurn;
    AfterAfter(n, q.used, ElementLoop(rest, Int32(pos + q.used), end, kind, tagSet, q.value.value));
  }

  lemma ElementLoopDone(s: seq<byte>, n: nat, pos: int, end: int, kind: int, tagSet: seq<Tag>, e: Elem)
    requires pos >= end
    ensures After(n, ElementLoop(s, pos, end, kind, tagSet, e)) == Ok(e, n)
  {
  }

  lemma PoiCoordsStart(c: seq<byte>, count: int, p: Option<Point>, len: Decoded<int>)
    requires len == Varint32(c) && len.Ok?
    ensures PoiCoords(c, count, p) == After(len.used, PoiLoop(c[len.used..], 0, count, p))
  {
  }

  lemma PoiLoopDone(s: seq<byte>, n: nat, i: int, count: int, p: Option<Point>)
    requires i >= count
    ensures After(n, PoiLoop(s, i, count, p)) == Ok(p, n)
  {
  }

  lemma PoiLoopFail(s: seq<byte>, n: nat, i: int, count: int, p: Option<Point>, q: Decoded<Point>)
    requires i < count && q == PoiPair(s) && q.Fail?
    ensures After(n, PoiLoop(s, i, count, p)) == Fail(q.error)
  {
  }

  lemma PoiLoopAdvance(s: seq<byte>, n: nat, i: int, count: int, p: Option<Point>, q: Decoded<Point>,
                       rest: seq<byte>)
    requires i < count && q == PoiPair(s) && q.Ok? && rest == s[q.used..]
    ensures After(n, PoiLoop(s, i, count, p)) == After(n + q.used, PoiLoop(rest, i + 1, count, Some(q.value)))
  {
    AfterAfter(n, q.used, PoiLoop(rest, i + 1, count, Some(q.value)));
  }

  /** `numTags * 2` narrowed to an int stays even: the pairs cover it exactly. */
  lemma PairCountLength(numTags: int)
    ensures Int32(numTags * 2) > 0 ==> Int32(numTags * 2) == 2 * PairCount(numTags)
  {
    var x := numTags * 2;
    Wire.Int32Congruent(x);
    var d := Int32(x) - x;
    assert d == TWO32 * (d / TWO32);
    assert Int32(x) == 2 * (numTags + 0x8000_0000 * (d / TWO32));
  }

  /** One pair of the tag table: its two lookups, then the pairs after it. */
  lemma TagPairsUnfold(idx: seq<short>, i: nat, n: nat, keys: Option<seq<Str>>, vals: Option<seq<Str>>,
                       t: Tables)
    requires i < n && 2 * n <= |idx|
    ensures var k := ResolveIndex(idx[2 * i], t.keys, t.maxKey, keys, t.attribOffset);
            var v := ResolveIndex(idx[2 * i + 1], t.values, t.maxValue, vals, t.attribOffset);
            TagPairs(idx, i, n, keys, vals, t)
            == if k.Rejected? then Rejected
               else if k.Crash? then Crash(k.error)
               else if v.Rejected? then Rejected
               else if v.Crash? then Crash(v.error)
               else Prepend([Tag(k.value, v.value)], TagPairs(idx, i + 1, n, keys, vals, t))
  {
  }

  lemma TagPairsEnd(idx: seq<short>, n: nat, keys: Option<seq<Str>>, vals: Option<seq<Str>>, t: Tables)
    requires 2 * n <= |idx|
    ensures TagPairs(idx, n, n, keys, vals, t) == Resolved([])
  {
  }

  lemma PrependNil(r: Resolution<seq<Tag>>)
    ensures Prepend([], r) == r
  {
    if r.Resolved? {
      assert [] + r.value == r.value;
    }
  }

  lemma PrependStep(acc: seq<Tag>, tag: Tag, rest: Resolution<seq<Tag>>)
    ensures Prepend(acc, Prepend([tag], rest)) == Prepend(acc + [tag], rest)
  {
    if rest.Resolved? {
      assert acc + ([tag] + rest.value) == acc + [tag] + rest.value;
    }
  }
}
