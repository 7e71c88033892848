# Vector tile reader: a Dafny model

This project models the reading core of the mapsforge vector-tile reader. It has three parts:

- `LwHttp` is a small keep-alive HTTP client. It asks a tile server for `zoom/x/y.vtm` and checks the status line. It finds the end of the response header and reads a four-byte big-endian content length.
- `ProtobufDecoder` is a buffered protocol-buffer reader over the response stream. It provides varints, varint arrays and length-prefixed strings, and never reads past the declared content length.
- `TileDecoder` decodes one tile. It reads the tile's string tables and tag table, then its lines, polygons and points of interest. It also rebuilds each element's rings from zigzag-coded, delta-accumulated coordinates.

The Dafny modules are:

- `Wire` (wire.dfy) holds Java's int, short and byte narrowings. It defines the two varint readers as functions on the undecoded bytes, with their encoder, round trips and malformation conditions.
- `Protobuf` (protobuf.dfy) defines the class `ProtobufDecoder`.
  - Its fields are the buffer array, the window `bufferPos..bufferFill`, the offset, the content budget and the stream still to come.
  - `Content()` is the part of the message not yet decoded.
  - Every decoding method is proved against a function of `Content()`.
  - The class also has the in-place refill, compaction and growth of the buffer.
- `Geometry` (geometry.dfy) covers the reconstruction of points in decodeInterleavedPoints:
  - zigzag decoding;
  - the partition of the index array into geometries and rings;
  - the running x and y sums;
  - the slot-by-slot filling of rings, with polygon rings closed by their first point.

  Loops run over arrays and sequences as in Java and are proved equal to these functions.
- `TileSpec` (tilespec.dfy) states `TileDecoder` as functions of the tile content: each field of `decode`, each sub-field of `decodeTileElement`, the tag tables and the emission of ways and points. The lemmas about them live here too.
- `Tiles` (tiles.dfy) defines the class `TileDecoder`. It holds a `ProtobufDecoder` and the tile's tag set, ways and points. Each of its methods is proved to agree with the `TileSpec` function of the same name.
- `Http` (http.dfy) covers `writeInt`, `compareBytes` and `decodeInt`, the request bytes and the keep-alive policy. It has the response-header scan as written in Java and the scan the code evidently intends, and the class `LwHttp`.

A socket, a clock and a URL parser are not part of the model.

- The connection's behaviour is a parameter:
  - the bytes a response delivers, chunk by chunk;
  - whether each connect and write succeeds;
  - the current time.
- The host, port and path of the server URL are parameters of `SetServer`.
- Java's positions are `int`s: `Int32` narrows the model's unbounded sums wherever Java adds or compares positions.

## Model

| member | source | states |
|---|---|---|
| Wire.Int32 | src/org/mapsforge/map/reader/ProtobufDecoder.java:191-193 | position() is an int: the narrowing lands in the int range and leaves an int unchanged |
| Wire.Int32Congruent | src/org/mapsforge/map/reader/TileDecoder.java:236 | narrowing to int keeps the value modulo 2^32 |
| Wire.Int32Shift | src/org/mapsforge/map/reader/TileDecoder.java:236 | an int sum narrowed after each addition equals the exact sum narrowed once, so `position() + bytes` may be computed exactly and narrowed at the end |
| Wire.Int16 | src/org/mapsforge/map/reader/ProtobufDecoder.java:105 | the `(short)` cast leaves every short value unchanged |
| Wire.Int16Congruent | src/org/mapsforge/map/reader/ProtobufDecoder.java:105 | the `(short)` cast keeps the value modulo 2^16 |
| Wire.Int8 | src/org/mapsforge/map/reader/TileDecoder.java:320 | the `(byte) layer` cast lies in the byte range and leaves byte values unchanged |
| Wire.Int8Congruent | src/org/mapsforge/map/reader/TileDecoder.java:324 | the `(byte)` cast keeps the value modulo 2^8 |
| Wire.Unsigned32 | src/org/mapsforge/map/reader/TileDecoder.java:466-468 | what `>>>` and `& 1` see of an int: a value below 2^32 that equals any non-negative int |
| Wire.Low7 | src/org/mapsforge/map/reader/ProtobufDecoder.java:127 | `b & 0x7f` is the byte itself below 0x80 and the byte less 0x80 above |
| Wire.SkipUpper | src/org/mapsforge/map/reader/ProtobufDecoder.java:148-154 | the discard loop after the fifth byte stops at a terminating byte within five more bytes, or at the limit |
| Wire.Varint32 | src/org/mapsforge/map/reader/ProtobufDecoder.java:114-161 | decodeVarint32 consumes 1 to 8 bytes of those present (longer encodings throw) and yields a Java int |
| Wire.Varint5 | src/org/mapsforge/map/reader/ProtobufDecoder.java:82-103 | the array loop's varint reader consumes 1 to 5 bytes and yields the base-128 value of exactly those bytes |
| Wire.EncodeVarint | src/org/mapsforge/map/reader/ProtobufDecoder.java:114-161 | the encoder that decodeVarint32 inverts is never empty |
| Wire.Varint32OfTerminated | src/org/mapsforge/map/reader/ProtobufDecoder.java:122-145 | when one of the first four bytes terminates the varint, decodeVarint32 yields the narrowed base-128 value of the bytes up to it |
| Wire.Varint32SingleByte | src/org/mapsforge/map/reader/ProtobufDecoder.java:122-123 | a byte below 0x80 is a varint by itself |
| Wire.EncodeVarintShape | src/org/mapsforge/map/reader/ProtobufDecoder.java:114-161 | an encoding terminates, its groups sum to the value, and its length is 1 exactly below 0x80, at most 2 below 0x4000, and so on |
| Wire.Varint32RoundTrip | src/org/mapsforge/map/reader/ProtobufDecoder.java:114-161 | decodeVarint32 of an encoded value, whatever follows, yields the value narrowed to an int and consumes exactly its encoding |
| Wire.Varint5RoundTrip | src/org/mapsforge/map/reader/ProtobufDecoder.java:82-103 | the array loop's reader yields every value below 2^35 back exactly and consumes its encoding |
| Wire.Varint32MalformedIff | src/org/mapsforge/map/reader/ProtobufDecoder.java:148-154 | decodeVarint32 throws "malformed VarInt32" exactly when the first eight bytes all carry the continuation bit and a ninth byte follows: the discard loop also rejects a varint that ends at its ninth byte |
| Wire.Varint5MalformedIff | src/org/mapsforge/map/reader/ProtobufDecoder.java:96-103 | the array reader throws "malformed VarInt32" exactly when the first five bytes all carry the continuation bit |
| Wire.Varint32Extend | src/org/mapsforge/map/reader/ProtobufDecoder.java:114-161 | a decided varint is unaffected by the bytes after the ones it looks at |
| Wire.Varint32Decided | src/org/mapsforge/map/reader/ProtobufDecoder.java:114-116 | nine bytes always decide decodeVarint32, so the VARINT_MAX (10) bytes it refills for are enough |
| Wire.Varint5Extend | src/org/mapsforge/map/reader/ProtobufDecoder.java:82-103 | a decided array varint is unaffected by later bytes |
| Protobuf.LengthPrefixed | src/org/mapsforge/map/reader/ProtobufDecoder.java:163-178 | decodeString's result is the bytes just before the end of what it consumed |
| Protobuf.LengthPrefixedSplit | src/org/mapsforge/map/reader/ProtobufDecoder.java:164-174 | a string is its varint length, then a negative length fails, too few bytes fail, otherwise exactly that many bytes follow |
| Protobuf.ArrayLoop | src/org/mapsforge/map/reader/ProtobufDecoder.java:78-109 | a successful array loop ends exactly at the declared byte count |
| Protobuf.VarintArray | src/org/mapsforge/map/reader/ProtobufDecoder.java:66-112 | decodeVarintArray consumes only bytes that are present |
| Protobuf.ArrayLoopBound | src/org/mapsforge/map/reader/ProtobufDecoder.java:79-80 | the stored values never exceed the array length, nor the count `num` when it is non-negative |
| Protobuf.VarintArrayBound | src/org/mapsforge/map/reader/ProtobufDecoder.java:79-80 | decodeVarintArray stores at most the array's length and at most `num` values |
| Protobuf.ProtobufDecoder.constructor | src/org/mapsforge/map/reader/ProtobufDecoder.java:49-51 | a decoder starts with an empty window at offset 0 and a buffer of BUFFER_SIZE |
| Protobuf.ProtobufDecoder.SetInputStream | src/org/mapsforge/map/reader/ProtobufDecoder.java:53-59 | the window is emptied and the budget set to the content length; the offset is not reset |
| Protobuf.ProtobufDecoder.Read | src/org/mapsforge/map/reader/ProtobufDecoder.java:233-253 | one stream read appends a non-empty prefix of what remains within the budget, or reports the end of the stream |
| Protobuf.ProtobufDecoder.ReadBuffer | src/org/mapsforge/map/reader/ProtobufDecoder.java:195-257 | readBuffer never changes the undecoded content or the position; afterwards `size` bytes are buffered or the content is all buffered |
| Protobuf.ProtobufDecoder.MakeRoom | src/org/mapsforge/map/reader/ProtobufDecoder.java:204-227 | growth and compaction keep the window and the position and leave room for `size` bytes after bufferPos |
| Protobuf.ProtobufDecoder.MoveWindow | src/org/mapsforge/map/reader/ProtobufDecoder.java:209-226 | the arraycopy to the front keeps the window's bytes and the position |
| Protobuf.ProtobufDecoder.Refill | src/org/mapsforge/map/reader/ProtobufDecoder.java:231-255 | the read loop only moves bytes from the stream to the end of the window, within the budget |
| Protobuf.ProtobufDecoder.FillWindow | src/org/mapsforge/map/reader/ProtobufDecoder.java:229-256 | after the read loop the window holds `size` bytes or the content is all buffered, and the content is unchanged |
| Protobuf.ProtobufDecoder.DecodeVarint32 | src/org/mapsforge/map/reader/ProtobufDecoder.java:114-161 | decodeVarint32's result is Varint32 of the undecoded content, and on success exactly its bytes are consumed |
| Protobuf.ProtobufDecoder.DecodeBuffered | src/org/mapsforge/map/reader/ProtobufDecoder.java:118-160 | the branches over the buffered window give Varint32 of the content |
| Protobuf.ProtobufDecoder.DecodeVarintArray | src/org/mapsforge/map/reader/ProtobufDecoder.java:66-112 | decodeVarintArray agrees with VarintArray of the content; the values land at the array's start and the rest of the array is untouched |
| Protobuf.ProtobufDecoder.DecodeArrayBody | src/org/mapsforge/map/reader/ProtobufDecoder.java:69-111 | the refill and loop after the byte count agree with ArrayLoop |
| Protobuf.ProtobufDecoder.StoreWindow | src/org/mapsforge/map/reader/ProtobufDecoder.java:78-109 | the loop over the buffered window stores exactly ArrayLoop's values |
| Protobuf.ProtobufDecoder.Advance | src/org/mapsforge/map/reader/ProtobufDecoder.java:111 | moving bufferPos drops exactly those bytes from the content and adds them to the position |
| Protobuf.ProtobufDecoder.DecodeString | src/org/mapsforge/map/reader/ProtobufDecoder.java:163-178 | decodeString's bytes are LengthPrefixed of the content, and it consumes exactly them |
| Protobuf.ProtobufDecoder.Skip | src/org/mapsforge/map/reader/ProtobufDecoder.java:61-64 | skip succeeds exactly when the string is there, and then moves past exactly the string's bytes |
| Protobuf.ProtobufDecoder.ReadBytes | src/org/mapsforge/map/reader/ProtobufDecoder.java:165-174 | `size` bytes are taken from the content: a negative size and a short content fail |
| Protobuf.ProtobufDecoder.HasDataAsWritten | src/org/mapsforge/map/reader/ProtobufDecoder.java:179-189 | hasData is readBuffer(1), whose answer depends on the buffered window, the budget and the stream, not only on the content |
| Protobuf.ProtobufDecoder.HasData | src/org/mapsforge/map/reader/ProtobufDecoder.java:188 | true exactly when the content holds another byte |
| Protobuf.Deliver | src/org/mapsforge/map/reader/ProtobufDecoder.java:239 | a read lands its bytes at bufferFill and changes nothing else in the buffer |
| Protobuf.ScanVarint32 | src/org/mapsforge/map/reader/ProtobufDecoder.java:118-160 | the byte-by-byte branches of decodeVarint32 over buf[pos..fill) compute Varint32 of that window |
| Protobuf.ScanVarint5 | src/org/mapsforge/map/reader/ProtobufDecoder.java:82-103 | the branches of the array loop compute Varint5 of the window |
| Protobuf.ArrayLoopWindow | src/org/mapsforge/map/reader/ProtobufDecoder.java:69-109 | after readBuffer(bytes) the loop over the window agrees with the loop over the whole content |
| Protobuf.ReadyMeaning | src/org/mapsforge/map/reader/ProtobufDecoder.java:195-257 | readBuffer answers false only when the content holds at most `size` more bytes; it answers true whenever more than `size` are buffered or the stream holds the whole remaining budget |
| Protobuf.ReadyOffByOne | src/org/mapsforge/map/reader/ProtobufDecoder.java:197 | exactly `size` buffered bytes at the end of the content answer false, while the same bytes still in the stream answer true |
| Protobuf.HasDataDependsOnBuffering | src/org/mapsforge/map/reader/ProtobufDecoder.java:179-181 | one remaining content byte makes hasData false when buffered and true when still in the stream |
| Protobuf.SkipAsWrittenOverruns | src/org/mapsforge/map/reader/ProtobufDecoder.java:61-64 | Java's skip moves bufferPos past bufferFill when the skipped bytes were not buffered |
| Protobuf.SkipMatchesString | src/org/mapsforge/map/reader/ProtobufDecoder.java:61-64 | where the whole string is buffered, Java's skip moves exactly as far as decodeString would |
| Protobuf.ShortsNarrow | src/org/mapsforge/map/reader/ProtobufDecoder.java:105 | each stored value is the decoded value cast to short |
| Protobuf.ArrayLoopEncoded | src/org/mapsforge/map/reader/ProtobufDecoder.java:78-106 | over encoded values the loop stops at the first count or capacity check that fails, and otherwise stores them all |
| Protobuf.ArrayOutcomeOk | src/org/mapsforge/map/reader/ProtobufDecoder.java:79-80 | the loop succeeds exactly when neither the count nor the capacity is exceeded, and then holds every value |
| Protobuf.VarintArrayRoundTrip | src/org/mapsforge/map/reader/ProtobufDecoder.java:66-112 | decodeVarintArray of a byte count and the encoded values succeeds exactly when they fit the count and the array, and then returns them all as shorts |
| Protobuf.ArrayLoopFromStart | src/org/mapsforge/map/reader/ProtobufDecoder.java:78-109 | the loop from the start over encoded values succeeds iff they fit, and returns them |
| Protobuf.VarintArrayHeader | src/org/mapsforge/map/reader/ProtobufDecoder.java:67-75 | decodeVarintArray is its byte count followed by the loop over that many bytes |
| Geometry.DeZigZag | src/org/mapsforge/map/reader/TileDecoder.java:466-468 | deZigZag yields a Java int |
| Geometry.ZigZag | src/org/mapsforge/map/reader/TileDecoder.java:466-468 | the zigzag encoder maps ints below 2^32 |
| Geometry.ZigZagRoundTrip | src/org/mapsforge/map/reader/TileDecoder.java:466-468 | deZigZag inverts zigzag coding on every int, and zigzag inverts deZigZag on the unsigned view |
| Geometry.DeZigZagValues | src/org/mapsforge/map/reader/TileDecoder.java:415 | 0, 1, 2, 3, 4 decode to 0, -1, 1, -2, 2, and 0xFFFFFFFF to the smallest int |
| Geometry.RunLength | src/org/mapsforge/map/reader/TileDecoder.java:366-368 | the ring count stays inside the index |
| Geometry.PolygonSlots | src/org/mapsforge/map/reader/TileDecoder.java:370-373 | one ring per entry, each with one slot more than its entry |
| Geometry.PartitionShape | src/org/mapsforge/map/reader/TileDecoder.java:352-376 | every geometry has rings, and a line geometry has exactly one ring |
| Geometry.PartitionCounts | src/org/mapsforge/map/reader/TileDecoder.java:352-376 | the rings take, in order, exactly the positive index entries before the first negative one: nothing is lost, reordered or split |
| Geometry.PartitionExample | src/org/mapsforge/map/reader/TileDecoder.java:352-376 | the index [3, 0, 2, -1] gives a polygon of rings [4], [3] and lines [3], [2] |
| Geometry.PartitionIndex | src/org/mapsforge/map/reader/TileDecoder.java:352-376 | the partition loop computes Partition |
| Geometry.CountRings | src/org/mapsforge/map/reader/TileDecoder.java:366-368 | the ring counter is the length of the run of positive entries |
| Geometry.RingSlots | src/org/mapsforge/map/reader/TileDecoder.java:370-373 | the ring allocation loop gives PolygonSlots |
| Geometry.PartitionLine | src/org/mapsforge/map/reader/TileDecoder.java:358-363 | a positive entry of a line index is one geometry of one ring |
| Geometry.PartitionPolygon | src/org/mapsforge/map/reader/TileDecoder.java:366-375 | a run of positive entries of a polygon index is one geometry |
| Geometry.RunX | src/org/mapsforge/map/reader/TileDecoder.java:418 | lastX stays a Java int |
| Geometry.RunY | src/org/mapsforge/map/reader/TileDecoder.java:421 | lastY stays a Java int |
| Geometry.Points | src/org/mapsforge/map/reader/TileDecoder.java:417-424 | one point per x,y pair of values; a trailing x value gives none |
| Geometry.WrapAdd | src/org/mapsforge/map/reader/TileDecoder.java:418-421 | updating lastX with wrap-around after each delta gives the wrapped sum of all deltas |
| Geometry.PointAt | src/org/mapsforge/map/reader/TileDecoder.java:417-424 | point k is at the running sums of the first 2k+2 values, over ring and geometry boundaries alike |
| Geometry.StepX | src/org/mapsforge/map/reader/TileDecoder.java:417-419 | an x value moves lastX by its delta and produces no point |
| Geometry.StepY | src/org/mapsforge/map/reader/TileDecoder.java:420-424 | a y value moves lastY and produces the point (lastX, lastY) |
| Geometry.FillRing | src/org/mapsforge/map/reader/TileDecoder.java:372 | a ring has the slots it was allocated |
| Geometry.FillRings | src/org/mapsforge/map/reader/TileDecoder.java:370-373 | one ring per slot count |
| Geometry.FillGeoms | src/org/mapsforge/map/reader/TileDecoder.java:346-376 | one geometry per part of the partition |
| Geometry.FillSlot | src/org/mapsforge/map/reader/TileDecoder.java:424-445 | every slot holds its own point once decoded, the ring's first point for a full polygon ring's closing slot, and null otherwise |
| Geometry.FillGeomsNext | src/org/mapsforge/map/reader/TileDecoder.java:424-429 | writing one more point at the cursor changes exactly that slot (and the closing slot of a polygon ring) |
| Geometry.BlankIsFill | src/org/mapsforge/map/reader/TileDecoder.java:370-373 | freshly allocated rings are the fill with no points |
| Geometry.CoordLoop | src/org/mapsforge/map/reader/TileDecoder.java:384-461 | a successful coordinate loop ends exactly at the declared count, keeps the values read so far, and reads at most two values per slot |
| Geometry.PointsLoop | src/org/mapsforge/map/reader/TileDecoder.java:378-461 | a successful loop consumes exactly the declared bytes and gives one geometry per part |
| Geometry.InterleavedPoints | src/org/mapsforge/map/reader/TileDecoder.java:330-464 | decodeInterleavedPoints consumes only bytes that are present |
| Geometry.InterleavedPointsCount | src/org/mapsforge/map/reader/TileDecoder.java:332-379 | on success the index was not null, the bytes consumed are the count and the declared bytes, and the partition was not empty |
| Geometry.CoordLoopWindow | src/org/mapsforge/map/reader/TileDecoder.java:334-384 | after readBuffer(bytes) the loop over the window agrees with the loop over the whole content |
| Geometry.PointsLoopWindow | src/org/mapsforge/map/reader/TileDecoder.java:334-384 | the same for the whole point reconstruction |
| Geometry.NextSlot | src/org/mapsforge/map/reader/TileDecoder.java:431-444 | the cursor moves to the next ring, then the next geometry, and the loop breaks exactly when every slot holds a point |
| Geometry.WritePoint | src/org/mapsforge/map/reader/TileDecoder.java:424-444 | one write turns the fill of `pts` into the fill of `pts` plus the new point |
| Geometry.ReadCoord | src/org/mapsforge/map/reader/TileDecoder.java:385-412 | one varint of the coordinate loop either fails as CoordLoop does or advances it |
| Geometry.ScanPoints | src/org/mapsforge/map/reader/TileDecoder.java:378-461 | the loop over the buffered window computes PointsLoop |
| Geometry.ScanValue | src/org/mapsforge/map/reader/TileDecoder.java:385-415 | one value, read and de-zigzagged, advances CoordLoop |
| TileSpec.PoolFor | src/org/mapsforge/map/reader/TileDecoder.java:147-148 | the scratch array is replaced only when shorter than needed, so its length is at least the need and at least 100 |
| TileSpec.Filled | src/org/mapsforge/map/reader/TileDecoder.java:148-150 | a new scratch array holds the decoded values first and zeros after |
| TileSpec.PairCount | src/org/mapsforge/map/reader/TileDecoder.java:180 | the pairs read stay within `numTags * 2` computed as an int |
| TileSpec.ResolveIndexMeaning | src/org/mapsforge/map/reader/TileDecoder.java:185-205 | an index resolves exactly when it is a static index up to MAX or a tile index below the table's length, to that entry; it is refused exactly when out of those bounds |
| TileSpec.TagPairsInOrder | src/org/mapsforge/map/reader/TileDecoder.java:180-210 | resolved tags are one per pair, in order, each built from its pair's two entries |
| TileSpec.TagPairsAllOrNothing | src/org/mapsforge/map/reader/TileDecoder.java:180-212 | the tag table resolves exactly when every pair resolves |
| TileSpec.ElementTags | src/org/mapsforge/map/reader/TileDecoder.java:477-497 | a resolved tag list has one entry per declared tag |
| TileSpec.WayIndices | src/org/mapsforge/map/reader/TileDecoder.java:215-228 | the index array has room for the declared entries |
| TileSpec.WayIndicesSentinel | src/org/mapsforge/map/reader/TileDecoder.java:221-225 | the index holds the decoded values first and, when the array has room, -1 right after them |
| TileSpec.PoiCoords | src/org/mapsforge/map/reader/TileDecoder.java:287-293 | a point's coordinates consume only bytes that are present |
| TileSpec.PoiLoop | src/org/mapsforge/map/reader/TileDecoder.java:289-293 | the point loop consumes only bytes that are present |
| TileSpec.PoiPair | src/org/mapsforge/map/reader/TileDecoder.java:290-291 | a coordinate pair is two varints |
| TileSpec.ElemField | src/org/mapsforge/map/reader/TileDecoder.java:259-304 | a sub-field consumes only bytes that are present |
| TileSpec.ElemTurn | src/org/mapsforge/map/reader/TileDecoder.java:253-304 | a turn consumes at least its key |
| TileSpec.ElementLoop | src/org/mapsforge/map/reader/TileDecoder.java:251-305 | the sub-field loop consumes only bytes that are present |
| TileSpec.Ways | src/org/mapsforge/map/reader/TileDecoder.java:319-320 | one way per geometry |
| TileSpec.Element | src/org/mapsforge/map/reader/TileDecoder.java:230-328 | an element consumes only bytes that are present |
| TileSpec.EmissionMeaning | src/org/mapsforge/map/reader/TileDecoder.java:307-327 | an element without tags or index entries adds nothing and reports false; a line or polygon adds one way per geometry with the byte-cast layer and the tags; a point adds one point of interest exactly when a position was read |
| TileSpec.ElemTurnStops | src/org/mapsforge/map/reader/TileDecoder.java:253-259 | the sub-field loop breaks exactly at a zero key; any other key is followed by the sub-field of tag key/8 |
| TileSpec.AccStart | src/org/mapsforge/map/reader/TileDecoder.java:91-102 | decode starts with no tables and zero cursors |
| TileSpec.TableField | src/org/mapsforge/map/reader/TileDecoder.java:135-143 | an allocated table has a non-negative count |
| TileSpec.TileField | src/org/mapsforge/map/reader/TileDecoder.java:108-168 | a field that continues keeps the tables consistent with their counts |
| TileSpec.TileTurn | src/org/mapsforge/map/reader/TileDecoder.java:104-168 | a turn that continues consumes at least its key |
| TileSpec.StringFieldMeaning | src/org/mapsforge/map/reader/TileDecoder.java:115-129 | a string is refused exactly when its table is null or full; otherwise it goes to the cursor's entry and no other entry changes |
| TileSpec.TableStringMeaning | src/org/mapsforge/map/reader/TileDecoder.java:115-129 | a key (or value) string makes decode return null exactly when its table is null or full; otherwise it is stored at the cursor and the cursor moves on by one |
| TileSpec.VersionFieldMeaning | src/org/mapsforge/map/reader/TileDecoder.java:157-163 | a version other than 4 makes decode return null; version 4 changes nothing else |
| TileSpec.UnknownFieldMeaning | src/org/mapsforge/map/reader/TileDecoder.java:165-167 | an unknown tag makes decode return null without reading further |
| TileSpec.TileTurnBuilds | src/org/mapsforge/map/reader/TileDecoder.java:104 | decode's loop ends, returning the tile built so far, exactly when the content is used up or a key is not positive |
| TileSpec.TileFieldNeverBuilds | src/org/mapsforge/map/reader/TileDecoder.java:108-168 | no field returns a built tile: each one continues, returns null or throws |
| TileSpec.ElementEndWraps | src/org/mapsforge/map/reader/TileDecoder.java:236 | a line element declaring 2^31-1 bytes wraps its end below its start; its bytes are then read as tile fields and the tile is null |
| TileSpec.WrappedElement | src/org/mapsforge/map/reader/TileDecoder.java:236-251 | with the wrapped end the sub-field loop does not run and the element adds nothing |
| Tiles.TileDecoder.constructor | src/org/mapsforge/map/reader/TileDecoder.java:70-77 | a new decoder with the static tables, an empty tag set and no ways or points |
| Tiles.TileDecoder.Decode | src/org/mapsforge/map/reader/TileDecoder.java:79-175 | decode matches TileSpec.Decode, and a built tile is the ways and points the decoder collected |
| Tiles.TileDecoder.DecodeTurn | src/org/mapsforge/map/reader/TileDecoder.java:104-168 | one loop turn matches TileTurn and consumes what it says |
| Tiles.TileDecoder.DecodeField | src/org/mapsforge/map/reader/TileDecoder.java:108-168 | one switch arm matches TileField and never builds the tile |
| Tiles.TileDecoder.DecodeStringField | src/org/mapsforge/map/reader/TileDecoder.java:115-129 | a key or value string field equals TileField |
| Tiles.TileDecoder.DecodeCountField | src/org/mapsforge/map/reader/TileDecoder.java:131-143 | a count or version field equals TileField and leaves the tag set, ways and points alone |
| Tiles.TileDecoder.DecodeTagsField | src/org/mapsforge/map/reader/TileDecoder.java:145-155 | the tag table field matches TileField and the new tags are the tag set |
| Tiles.TileDecoder.DecodeTileTags | src/org/mapsforge/map/reader/TileDecoder.java:177-213 | decodeTileTags equals TileTags and appends exactly the resolved tags |
| Tiles.TileDecoder.DecodeTileElement | src/org/mapsforge/map/reader/TileDecoder.java:230-328 | an element agrees with Element and appends exactly its ways and points |
| Tiles.TileDecoder.DecodeSubFields | src/org/mapsforge/map/reader/TileDecoder.java:236-305 | the sub-field loop runs up to the int end `position() + bytes` and agrees with ElementLoop |
| Tiles.TileDecoder.DecodeElemTurn | src/org/mapsforge/map/reader/TileDecoder.java:253-304 | one turn agrees with ElemTurn |
| Tiles.TileDecoder.AddWays | src/org/mapsforge/map/reader/TileDecoder.java:319-320 | the ways of the element are appended and nothing else changes |
| Tiles.TileDecoder.DecodeElemField | src/org/mapsforge/map/reader/TileDecoder.java:259-304 | one sub-field agrees with ElemField |
| Tiles.TileDecoder.DecodePoiCoords | src/org/mapsforge/map/reader/TileDecoder.java:287-293 | a point's coordinates equal PoiCoords |
| Tiles.TileDecoder.DecodePoiPairs | src/org/mapsforge/map/reader/TileDecoder.java:289-293 | the point loop equals PoiLoop |
| Tiles.TileDecoder.DecodePoiPair | src/org/mapsforge/map/reader/TileDecoder.java:290-291 | a pair equals PoiPair |
| Tiles.TileDecoder.SumIndex | src/org/mapsforge/map/reader/TileDecoder.java:275-276 | `coordCnt += index[i]` over the declared entries, as an int |
| Tiles.TileDecoder.DecodeWayIndices | src/org/mapsforge/map/reader/TileDecoder.java:215-228 | decodeWayIndices agrees with WayIndices |
| Tiles.TileDecoder.DecodeElementTags | src/org/mapsforge/map/reader/TileDecoder.java:470-498 | decodeElementTags agrees with ElementTagsAt |
| Tiles.TileDecoder.LookupTags | src/org/mapsforge/map/reader/TileDecoder.java:484-497 | the lookup loop equals ElementTags |
| Tiles.TileDecoder.DecodeInterleavedPoints | src/org/mapsforge/map/reader/TileDecoder.java:330-464 | decodeInterleavedPoints agrees with InterleavedPoints |
| Tiles.TileDecoder.BufferBytes | src/org/mapsforge/map/reader/TileDecoder.java:334 | afterwards the declared bytes or all of the content are buffered |
| Tiles.TileDecoder.ScanBuffered | src/org/mapsforge/map/reader/TileDecoder.java:336-461 | the loop over the buffer agrees with PointsLoop on the whole content |
| Tiles.TileLoopStop | src/org/mapsforge/map/reader/TileDecoder.java:104-168 | a turn that returns decides decode |
| Tiles.TileLoopNext | src/org/mapsforge/map/reader/TileDecoder.java:104-169 | a turn that continues leaves decode on the rest of the content, at the int position after it |
| Http.Decimal | src/org/mapsforge/map/reader/LwHttp.java:231-249 | writeInt's digits: at least one, all decimal digits, and a leading '0' only for 0 |
| Http.DecimalRoundTrip | src/org/mapsforge/map/reader/LwHttp.java:231-249 | reading the digits back gives the number |
| Http.WriteInt | src/org/mapsforge/map/reader/LwHttp.java:231-249 | writeInt writes exactly the digits of `val` at `pos`, returns the index after them, and changes no other byte |
| Http.WriteDigits | src/org/mapsforge/map/reader/LwHttp.java:237-239 | the digit loop writes the digits least significant first |
| Http.ReverseRange | src/org/mapsforge/map/reader/LwHttp.java:242-246 | the swap loop reverses the range and changes nothing outside it |
| Http.CompareBytes | src/org/mapsforge/map/reader/LwHttp.java:251-262 | true exactly when at least `length` bytes are available and they equal the first `length` bytes of the string |
| Http.DecodeInt | src/org/mapsforge/map/reader/LwHttp.java:264-268 | decodeInt is the four bytes read as a big-endian Java int, negative exactly when the first byte's top bit is set |
| Http.DecodeIntFrame | src/org/mapsforge/map/reader/LwHttp.java:264-268 | decodeInt looks at its four bytes and no others |
| Http.DecodeIntRoundTrip | src/org/mapsforge/map/reader/LwHttp.java:264-268 | decodeInt reads back every int from its big-endian bytes |
| Http.Fill | src/org/mapsforge/map/reader/LwHttp.java:83-84 | arraycopy stores the bytes at the offset and keeps the rest |
| Http.TilePathDigits | src/org/mapsforge/map/reader/LwHttp.java:191-195 | the request path is zoom, x and y in decimal separated by '/' |
| Http.TilePathNamesTile | src/org/mapsforge/map/reader/LwHttp.java:191-195 | distinct tiles have distinct paths |
| Http.RequestNamesTile | src/org/mapsforge/map/reader/LwHttp.java:188-199 | distinct tiles get distinct requests |
| Http.Check | src/org/mapsforge/map/reader/LwHttp.java:160-173 | the socket survives exactly when it was open, had budget left and was used within the timeout; the budget is post-decremented only when a socket is open |
| Http.SendPolicy | src/org/mapsforge/map/reader/LwHttp.java:158-215 | afterwards a socket is always set; a connect happens exactly when the check closed it, and one reconnect after a failed write; a new connection gets a budget of 100; the request is delivered exactly when a write succeeds |
| Http.KeepAliveCycle | src/org/mapsforge/map/reader/LwHttp.java:160-179 | a socket with budget m serves m more timely requests; the next one connects anew with a fresh budget |
| Http.IdleSocketReplaced | src/org/mapsforge/map/reader/LwHttp.java:161-162 | a socket idle past the timeout is replaced whatever its budget |
| Http.Read | src/org/mapsforge/map/reader/LwHttp.java:113 | a read returns end-of-stream exactly when nothing is left, and otherwise a non-empty prefix that fits |
| Http.Newline | src/org/mapsforge/map/reader/LwHttp.java:115-116 | the scan stops at the first newline or at `read` |
| Http.HeaderPass | src/org/mapsforge/map/reader/LwHttp.java:113-137 | a pass that continues either consumes stream bytes or moves to a later line |
| Http.Window | src/org/mapsforge/map/reader/LwHttp.java:33-34 | the part of a response the 1024-byte buffer can hold |
| Http.FixedScanMeaning | src/org/mapsforge/map/reader/LwHttp.java:101-156 | the intended scan answers exactly what ParseHeader reads from the bytes that fit the buffer: the status line, the empty line and the length after it |
| Http.HeaderFirstRead | src/org/mapsforge/map/reader/LwHttp.java:113-134 | a first chunk holding the status line moves the scan to the second line |
| Http.HeaderNextLine | src/org/mapsforge/map/reader/LwHttp.java:120-135 | a one-byte line ends the loop; any other line moves to the next |
| Http.HeaderStall | src/org/mapsforge/map/reader/LwHttp.java:113 | buffered bytes ending inside a line make the loop repeat forever |
| Http.HeaderTailEof | src/org/mapsforge/map/reader/LwHttp.java:140-143 | at the end of the stream `len` is -1 when the check runs |
| Http.ReadHeaderStallsMidLine | src/org/mapsforge/map/reader/LwHttp.java:113 | a valid response whose first chunk ends inside the second line hangs Java's readHeader; the intended scan reads length 5 |
| Http.ReadHeaderStaleLength | src/org/mapsforge/map/reader/LwHttp.java:143 | a response cut two bytes after the header passes Java's check on `read - len` and decodes two stale buffer bytes; the intended scan answers null |
| Http.WriteThenSlash | src/org/mapsforge/map/reader/LwHttp.java:191-194 | a number then '/' are appended and the rest of the buffer kept |
| Http.WriteRequest | src/org/mapsforge/map/reader/LwHttp.java:188-199 | the request buffer starts with the request, and its length is returned |
| Http.NewRequestBuffer | src/org/mapsforge/map/reader/LwHttp.java:82-84 | a new 1024-byte buffer holding REQUEST_GET_START then zeros |
| Http.LwHttp.constructor | src/org/mapsforge/map/reader/LwHttp.java:30-55 | no server, no socket, a zero budget and a zero last-request time |
| Http.LwHttp.SetServer | src/org/mapsforge/map/reader/LwHttp.java:57-86 | an unparsable URL changes nothing; otherwise the port defaults to 80, the request parts are built and a fresh request buffer starts with "GET " and the path |
| Http.LwHttp.SendRequest | src/org/mapsforge/map/reader/LwHttp.java:158-215 | the connection, the connects and the requests sent follow SendPolicy; the buffer holds the request once a socket was there to take it |
| Http.LwHttp.Expire | src/org/mapsforge/map/reader/LwHttp.java:160-173 | the connection after the reuse check is Check |
| Http.LwHttp.Connect | src/org/mapsforge/map/reader/LwHttp.java:217-228 | the socket is set even when the connect fails; a success gets a budget of 100 |
| Http.LwHttp.Write | src/org/mapsforge/map/reader/LwHttp.java:201-214 | the request is sent when the first write or the one retry succeeds; a retry reconnects once |
| Http.LwHttp.ReadHeader | src/org/mapsforge/map/reader/LwHttp.java:101-156 | readHeader equals HeaderScan, and contentLength is set exactly when a length was read |
| Http.LwHttp.ScanPass | src/org/mapsforge/map/reader/LwHttp.java:113-137 | one pass of the for loop equals HeaderPass |
| Http.LwHttp.FindNewline | src/org/mapsforge/map/reader/LwHttp.java:115-116 | the scan equals Newline |
| Http.LwHttp.WaitLength | src/org/mapsforge/map/reader/LwHttp.java:139-148 | the wait for the length bytes equals HeaderTail |
| Http.LwHttp.CheckLength | src/org/mapsforge/map/reader/LwHttp.java:143-148 | the check on `read - len`, then decodeInt at `end` |

## Left out

- Tiles.TileDecoder.Decode: loops on the hasData of the commented-out line in ProtobufDecoder.java:188 (another content byte exists), not on Java's readBuffer(1). With Java's hasData, content `08 04 78` delivered in one read returns an empty tile after the version. The model reads `78` as a value string with no table and returns null. HasDataAsWritten models Java's hasData; the Findings row below exhibits the difference.
- Protobuf.ProtobufDecoder.Skip: reads the skipped bytes into the buffer. Java's skip adds the declared length to bufferPos without buffering, which can put bufferPos past bufferFill (SkipAsWrittenOverruns). TileDecoder never calls skip.
- Protobuf.ProtobufDecoder.DecodeVarintArray: where the content is shorter than the bytes the loop looks at, Java ignores readBuffer's false result and decodes stale bytes left in the buffer past bufferFill. The model fails (Wire.Agrees allows any failure). The same holds for decodeVarint32, decodeString and decodeInterleavedPoints (TileDecoder.java:334). So truncated content that Java usually decodes into some tile is an exception in the model. For example, content `08` with contentLength 1 reads version 0 from a zero byte in Java and returns null, while the model throws.
- Tiles.TileDecoder.DecodeTileElement: the per-count Tag[] pool mElementTags (TileDecoder.java:479-480) is not modelled. Java reuses one array for every element with the same tag count, so a later element overwrites the tags array an earlier way still refers to. The model gives each element its own tags.
- Tiles.TileDecoder.DecodeWayIndices: the shared scratch array mTmpShortArray (TileDecoder.java:57, 216-219, 471-473) is a fresh zero-filled array per call. In Java a TAGS sub-field after the INDEX sub-field overwrites `index`, and the model keeps it.
- Tiles.TileDecoder.DecodeTileTags: in Java, stale entries of mTmpShortArray from earlier fields are read when fewer than `numTags * 2` indices were decoded. The model reads zeros.
- TileSpec.TagAt: the slot of curTags.tags at index numTags is taken to be null. The class TagSet is not part of this model.
- Positions: the model's Position() is the unbounded sum of the offset and bufferPos. Int32 is applied where Java computes or compares `position()` (TileDecoder.java:236, 251), so those wrap as in Java. mBufferOffset itself is not wrapped between reads.
- Strings stay their UTF-8 bytes: UTF8Decoder and `new String(..., "UTF-8")` are not modelled. Coordinates stay the accumulated integers: the division by the tile scale (4096) and LatLong's doubles are not modelled.
- MapReadResultBuilder, PoiWayBundle, Way, PointOfInterest and Tile are represented by the ways and points the decoder collects. The static tables of Tags are a parameter (Tables).
- Protobuf.ProtobufDecoder.SetInputStream: requires a non-negative content length. TileSpec.Decode treats a negative length as the exception Java's first read throws, before the decoder is used.
- Sockets, the clock and the URL parser are parameters: what the response delivers, whether each connect or write succeeds, the current time, and the URL's host, port and path. Java's close(), the socket options, the connect timeout and InetSocketAddress are not modelled.
- Http.LwHttp.SendRequest: requires the request to fit the 1024-byte request buffer, where Java throws ArrayIndexOutOfBoundsException.
- Http.LwHttp.SetServer: requires "GET " and the path to fit the 1024-byte request buffer, where Java's arraycopy throws.
- Http.LwHttp.SendRequest: the loop that discards left-over response bytes before reusing a socket (LwHttp.java:181-185) is not modelled, because nothing in it affects the request or the connection state.
- Http.LwHttp.ReadHeader: the mark/reset/skip of the stream (LwHttp.java:103, 151-153) is not modelled. The result carries the number of bytes to skip instead. A loop that Java would repeat forever is the result Hang, and an ArrayIndexOutOfBoundsException is Thrown.
- Logging (LOG.info, System.out and printStackTrace) is not modelled.

## Findings

| source | as written | input that shows it | evidently intended | confidence | as-written member | corrected member |
|---|---|---|---|---|---|---|
| src/org/mapsforge/map/reader/ProtobufDecoder.java:197 | readBuffer returns early with `bufferPos + size < bufferFill`, so hasData (readBuffer(1)) answers false when exactly one unread content byte is buffered and the stream is used up | contentLength 3, content `08 04 78` in one read: decode stops after the version and drops the last field | hasData true exactly when another content byte exists, as in the commented-out line 188 | not executed | Protobuf.ProtobufDecoder.HasDataAsWritten, Protobuf.HasDataDependsOnBuffering | Protobuf.ProtobufDecoder.HasData |
| src/org/mapsforge/map/reader/LwHttp.java:113 | the for loop reads only when `pos >= read`, so when the buffered bytes end inside a line `pos < read` stays true and the loop repeats forever | chunks `HTTP/1.1 200 OK\r\nA` and `B\r\n\r\n` followed by `00 00 00 05`: readHeader hangs | read more whenever no complete line is buffered; this response has content length 5 | not executed | Http.ReadHeaderStallsMidLine | Http.FixedScanMeaning |
| src/org/mapsforge/map/reader/LwHttp.java:143 | the check is `read - len < 4`, not `read - end < 4`; at the end of the stream `len` is -1, so the test passes with fewer than four length bytes | one chunk `HTTP/1.1 200 OK\r\n\r\n` followed by `00 01`: decodeInt reads two stale buffer bytes as the low half of the length | null unless the four length bytes arrived | not executed | Http.ReadHeaderStaleLength | Http.FixedScanMeaning |
