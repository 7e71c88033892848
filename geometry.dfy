/** Geometry reconstruction of TileDecoder.decodeInterleavedPoints: the ring
    counts of an element's index array are partitioned into geometries, the
    coordinate bytes are read as zigzag-coded deltas that alternate x and y and
    run into one accumulator for the whole element, and the points are written
    slot by slot into the rings, polygon rings being closed with their first
    point.

    Coordinates stay the integer pairs the decoder accumulates; the division
    by the tile scale 4096 is left out. A ring is the array of LatLong slots
    decodeInterleavedPoints allocates: a slot not written is None (null). */
module Geometry {
  import opened Wire
  import Protobuf

  datatype Point = Point(x: int, y: int)

  /** One LatLong[] of decodeInterleavedPoints: its slots, None where nothing was written. */
  type Ring = seq<Option<Point>>

  /** One LatLong[][]: the rings of one line or polygon. */
  type Geom = seq<Ring>

  function Min(a: int, b: int): int { if a <= b then a else b }

  // ---------------------------------------------------------------------------
  // Zigzag coding

  /** deZigZag: `(val >>> 1) ^ -(val & 1)` on a Java int. With u the unsigned
      view of val, the shift gives u / 2 and the xor with all ones (odd u)
      gives -(u / 2) - 1. */
  function DeZigZag(v: int): (r: int)
    ensures IsInt32(r)
  {
    var u := Unsigned32(v);
    if u % 2 == 0 then u / 2 else -(u / 2) - 1
  }

  /** The encoder's zigzag mapping `(n << 1) ^ (n >> 31)`, as an unsigned
      32-bit number. */
  function ZigZag(n: int): (r: nat)
    requires IsInt32(n)
    ensures r < TWO32
  {
    if n >= 0 then 2 * n else -2 * n - 1
  }

  /** deZigZag undoes the encoder's mapping, and the encoder undoes deZigZag
      on the unsigned view of any int: the two are inverse bijections between
      the ints and the unsigned 32-bit numbers. */
  lemma ZigZagRoundTrip(n: int, v: int)
    requires IsInt32(n)
    ensures DeZigZag(ZigZag(n)) == n
    ensures ZigZag(DeZigZag(v)) == Unsigned32(v)
  {
  }

  /** 0, 1, 2, 3, 4 decode to 0, -1, 1, -2, 2; the largest unsigned value
      decodes to the smallest int. */
  lemma DeZigZagValues()
    ensures DeZigZag(0) == 0 && DeZigZag(1) == -1 && DeZigZag(2) == 1
    ensures DeZigZag(3) == -2 && DeZigZag(4) == 2
    ensures DeZigZag(-1) == -0x8000_0000
  {
  }

  // ---------------------------------------------------------------------------
  // Partition of the index array

  /** The number of positive entries of `index` from `i` on, up to the first
      entry that is not positive. */
  function RunLength(index: seq<short>, i: nat): (r: nat)
    requires i <= |index|
    ensures i + r <= |index|
    decreases |index| - i
  {
    if i < |index| && index[i] > 0 then 1 + RunLength(index, i + 1) else 0
  }

  lemma {:induction false} RunLengthFacts(index: seq<short>, i: nat)
    requires i <= |index|
    ensures forall j :: i <= j < i + RunLength(index, i) ==> index[j] > 0
    ensures i + RunLength(index, i) < |index| ==> index[i + RunLength(index, i)] <= 0
    decreases |index| - i
  {
    if i < |index| && index[i] > 0 {
      RunLengthFacts(index, i + 1);
    }
  }

  /** The slot counts of the rings of one polygon: each entry plus one. */
  function PolygonSlots(index: seq<short>, i: nat, n: nat): (r: seq<nat>)
    requires i + n <= |index|
    requires forall j :: i <= j < i + n ==> index[j] > 0
    ensures |r| == n && forall k :: 0 <= k < n ==> r[k] == index[i + k] as int + 1
  {
    seq(n, k requires 0 <= k < n => (index[i + k] as int + 1) as nat)
  }

  /** The ring slot counts of the geometries allocated from `index[i..]`:
      entries up to the first negative one, zero entries skipped; a line
      gives one geometry of one ring of `index[i]` slots per entry, a polygon
      one geometry per maximal run of positive entries, whose rings have one
      slot more than their entries. */
  function Partition(index: seq<short>, i: nat, poly: bool): seq<seq<nat>>
    requires i <= |index|
    decreases |index| - i
  {
    if i == |index| || index[i] < 0 then []
    else if index[i] == 0 then Partition(index, i + 1, poly)
    else if !poly then [[index[i] as nat]] + Partition(index, i + 1, poly)
    else
      var n := RunLength(index, i);
      RunLengthFacts(index, i);
      [PolygonSlots(index, i, n)] + Partition(index, i + n, poly)
  }

  /** The number of points a ring of `slots` slots takes: a polygon ring
      reserves its last slot for the closing point. */
  function PointsIn(slots: nat, poly: bool): nat {
    if poly && slots >= 2 then slots - 1 else slots
  }

  /** Every geometry has a ring, every line ring a slot, every polygon ring
      a point and its closing slot. */
  predicate WellShaped(shape: seq<seq<nat>>, poly: bool) {
    forall g :: 0 <= g < |shape| ==> shape[g] != [] && WellRings(shape[g], poly)
  }

  predicate WellRings(rings: seq<nat>, poly: bool) {
    forall r :: 0 <= r < |rings| ==> rings[r] >= (if poly then 2 else 1)
  }

  /** The positive entries of `index[i..]` before its first negative one. */
  function Live(index: seq<short>, i: nat): seq<nat>
    requires i <= |index|
    decreases |index| - i
  {
    if i == |index| || index[i] < 0 then []
    else if index[i] == 0 then Live(index, i + 1)
    else [index[i] as nat] + Live(index, i + 1)
  }

  /** The point counts of all rings of `shape`, geometry after geometry. */
  function RingPoints(shape: seq<seq<nat>>, poly: bool): seq<nat> {
    if shape == [] then [] else PointsOfRings(shape[0], poly) + RingPoints(shape[1..], poly)
  }

  function PointsOfRings(rings: seq<nat>, poly: bool): seq<nat> {
    if rings == [] then [] else [PointsIn(rings[0], poly)] + PointsOfRings(rings[1..], poly)
  }

  /** The partition is well shaped, and a line geometry has exactly one ring. */
  lemma {:induction false} PartitionShape(index: seq<short>, i: nat, poly: bool)
    requires i <= |index|
    ensures WellShaped(Partition(index, i, poly), poly)
    ensures !poly ==> forall g :: 0 <= g < |Partition(index, i, poly)| ==> |Partition(index, i, poly)[g]| == 1
    decreases |index| - i
  {
    if i < |index| && index[i] >= 0 {
      if index[i] == 0 {
        PartitionShape(index, i + 1, poly);
      } else if !poly {
        PartitionShape(index, i + 1, poly);
        PartitionLine(index, i, poly);
      } else {
        PartitionPolygon(index, i, poly);
        PartitionShape(index, i + RunLength(index, i), poly);
      }
    }
  }

  /** The rings of the partition take, in order, exactly the live entries of
      the index as their point counts: no entry is lost, reordered or split. */
  lemma {:induction false} PartitionCounts(index: seq<short>, i: nat, poly: bool)
    requires i <= |index|
    ensures RingPoints(Partition(index, i, poly), poly) == Live(index, i)
    decreases |index| - i
  {
    if i < |index| && index[i] >= 0 {
      if index[i] == 0 {
        PartitionCounts(index, i + 1, poly);
      } else if !poly {
        PartitionCounts(index, i + 1, poly);
        var rest := Partition(index, i + 1, poly);
        var g := [index[i] as nat];
        assert Partition(index, i, poly) == [g] + rest;
        assert ([g] + rest)[1..] == rest;
        assert PointsOfRings(g, poly) == [index[i] as nat] by {
          assert g[1..] == [];
        }
      } else {
        RunLengthFacts(index, i);
        var n := RunLength(index, i);
        PartitionCounts(index, i + n, poly);
        var rest := Partition(index, i + n, poly);
        var g := PolygonSlots(index, i, n);
        assert Partition(index, i, poly) == [g] + rest;
        assert ([g] + rest)[1..] == rest;
        LiveRun(index, i, n, poly);
      }
    }
  }

  /** A run of positive entries contributes its entries to Live, and its
      polygon slots contribute the same counts as points. */
  lemma {:induction false} LiveRun(index: seq<short>, i: nat, n: nat, poly: bool)
    requires poly && i + n <= |index| && forall j :: i <= j < i + n ==> index[j] > 0
    ensures Live(index, i) == PointsOfRings(PolygonSlots(index, i, n), poly) + Live(index, i + n)
    decreases n
  {
    if n > 0 {
      LiveRun(index, i + 1, n - 1, poly);
      var g := PolygonSlots(index, i, n);
      var g' := PolygonSlots(index, i + 1, n - 1);
      assert g[1..] == g';
      var e := index[i] as nat;
      assert Live(index, i) == [e] + Live(index, i + 1);
      assert PointsOfRings(g, poly) == [e] + PointsOfRings(g', poly);
      Assoc3([e], PointsOfRings(g', poly), Live(index, i + n));
    }
  }

  /** The index of a polygon element with ring counts 3, 0 and 2 and the end
      marker: two polygons of one ring each, with 4 and 3 slots. */
  lemma PartitionExample()
    ensures Partition([3, 0, 2, -1], 0, true) == [[4], [3]]
    ensures Partition([3, 0, 2, -1], 0, false) == [[3], [2]]
    ensures Partition([3, 2, 0, 1], 0, true) == [[4, 3], [2]]
  {
    var a: seq<short> := [3, 0, 2, -1];
    assert RunLength(a, 0) == 1;
    assert RunLength(a, 2) == 1;
    assert PolygonSlots(a, 0, 1) == [4];
    assert PolygonSlots(a, 2, 1) == [3];
    var b: seq<short> := [3, 2, 0, 1];
    assert RunLength(b, 0) == 2;
    assert RunLength(b, 3) == 1;
    assert PolygonSlots(b, 0, 2) == [4, 3];
    assert PolygonSlots(b, 3, 1) == [2];
  }

  /** The partition loop at the head of decodeInterleavedPoints, giving the
      slot counts of the rings it allocates. */
  method PartitionIndex(index: seq<short>, poly: bool) returns (shape: seq<seq<nat>>)
    ensures shape == Partition(index, 0, poly)
  {
    shape := [];
    var i := 0;
    while i < |index| && index[i] >= 0
      invariant 0 <= i <= |index|
      invariant shape + Partition(index, i, poly) == Partition(index, 0, poly)
      decreases |index| - i
    {
      if index[i] == 0 {
        i := i + 1;
        continue;
      }
      if !poly {
        PartitionLine(index, i, poly);
        Assoc3(shape, [[index[i] as nat]], Partition(index, i + 1, poly));
        shape := shape + [[index[i] as nat]];
        i := i + 1;
        continue;
      }
      var rings := CountRings(index, i);
      var geom := RingSlots(index, i, rings);
      PartitionPolygon(index, i, poly);
      Assoc3(shape, [geom], Partition(index, i + rings, poly));
      i := i + rings;
      shape := shape + [geom];
    }
  }

  /** The ring counter of a polygon: the positive entries from `i` on. */
  method CountRings(index: seq<short>, i: nat) returns (rings: nat)
    requires i <= |index|
    ensures rings == RunLength(index, i)
    ensures forall j :: i <= j < i + rings ==> index[j] > 0
  {
    rings := 0;
    while i + rings < |index| && index[i + rings] > 0
      invariant i + rings <= |index|
      invariant RunLength(index, i) == rings + RunLength(index, i + rings)
      decreases |index| - i - rings
    {
      rings := rings + 1;
    }
    RunLengthFacts(index, i);
  }

  /** The slot counts of the polygon's rings, one entry plus one at a time. */
  method RingSlots(index: seq<short>, i: nat, rings: nat) returns (geom: seq<nat>)
    requires i + rings <= |index| && forall j :: i <= j < i + rings ==> index[j] > 0
    ensures geom == PolygonSlots(index, i, rings)
  {
    geom := [];
    var cnt := 0;
    while cnt < rings
      invariant 0 <= cnt <= rings && geom == PolygonSlots(index, i, rings)[..cnt]
    {
      geom := geom + [(index[i + cnt] as int + 1) as nat];
      cnt := cnt + 1;
    }
  }

  /** A positive entry of a line index is a geometry of one ring. */
  lemma PartitionLine(index: seq<short>, i: nat, poly: bool)
    requires i < |index| && index[i] > 0 && !poly
    ensures Partition(index, i, poly) == [[index[i] as nat]] + Partition(index, i + 1, poly)
  {
  }

  /** A run of positive entries of a polygon index is a geometry. */
  lemma PartitionPolygon(index: seq<short>, i: nat, poly: bool)
    requires i < |index| && index[i] > 0 && poly
    ensures i + RunLength(index, i) <= |index|
    ensures forall j :: i <= j < i + RunLength(index, i) ==> index[j] > 0
    ensures Partition(index, i, poly)
         == [PolygonSlots(index, i, RunLength(index, i))] + Partition(index, i + RunLength(index, i), poly)
  {
    RunLengthFacts(index, i);
  }

  // ---------------------------------------------------------------------------
  // The shared delta accumulator

  /** The sum of the deltas at positions of the given parity (0 for x, 1
      for y), without wrap-around. */
  function DeltaSum(vals: seq<int>, parity: nat): int
    decreases |vals|
  {
    if vals == [] then 0
    else
      var k := |vals| - 1;
      DeltaSum(vals[..k], parity) + (if k % 2 == parity then vals[k] else 0)
  }

  /** lastX after the de-zigzagged values (deltas) `vals`. The accumulator is
      never reset, over ring and geometry boundaries alike: it is the sum of
      every x delta read so far, wrapped to a Java int. */
  function RunX(vals: seq<int>): (r: int)
    ensures IsInt32(r)
  {
    Int32(DeltaSum(vals, 0))
  }

  /** lastY after the deltas `vals`: the same for the y deltas. */
  function RunY(vals: seq<int>): (r: int)
    ensures IsInt32(r)
  {
    Int32(DeltaSum(vals, 1))
  }

  /** The points of an element: one after each y value, at the accumulated
      (lastX, lastY); a trailing x value gives no point. */
  function Points(vals: seq<int>): (r: seq<Point>)
    ensures |r| == |vals| / 2
    decreases |vals|
  {
    if |vals| < 2 then []
    else if |vals| % 2 == 1 then Points(vals[..|vals| - 1])
    else Points(vals[..|vals| - 2]) + [Point(RunX(vals), RunY(vals))]
  }

  /** Adding to a wrapped sum wraps like adding to the sum: so lastX, updated
      with wrap-around after every delta, stays the wrapped sum of all x
      deltas. */
  lemma WrapAdd(a: int, d: int)
    ensures Int32(Int32(a) + d) == Int32(a + d)
  {
    var m := Int32(a);
    Int32Congruent(a);
    assert (m - a) % TWO32 == 0;
    var k := (m - a) / TWO32;
    assert m == a + k * TWO32;
    assert (m + d) % TWO32 == (a + d + k * TWO32) % TWO32 == (a + d) % TWO32;
  }

  /** The k-th point is at the running sums of the first 2k + 2 values. */
  lemma {:induction false} PointAt(vals: seq<int>, k: nat)
    requires k < |vals| / 2
    ensures Points(vals)[k] == Point(RunX(vals[..2 * k + 2]), RunY(vals[..2 * k + 2]))
    decreases |vals|
  {
    if |vals| % 2 == 1 {
      PointAt(vals[..|vals| - 1], k);
      assert vals[..|vals| - 1][..2 * k + 2] == vals[..2 * k + 2];
    } else if k < |vals| / 2 - 1 {
      PointAt(vals[..|vals| - 2], k);
      assert vals[..|vals| - 2][..2 * k + 2] == vals[..2 * k + 2];
    } else {
      assert vals[..2 * k + 2] == vals;
    }
  }

  /** A delta at an even position adds to the x sum, one at an odd position
      to the y sum. */
  lemma SumsAfter(vals: seq<int>, v: int)
    ensures DeltaSum(vals + [v], 0) == DeltaSum(vals, 0) + (if |vals| % 2 == 0 then v else 0)
    ensures DeltaSum(vals + [v], 1) == DeltaSum(vals, 1) + (if |vals| % 2 == 1 then v else 0)
  {
    var w := vals + [v];
    assert w[..|w| - 1] == vals && w[|w| - 1] == v;
  }

  /** An x value: lastX moves by its delta, lastY stays, no point appears. */
  lemma StepX(vals: seq<int>, v: int, x: int, y: int)
    requires |vals| % 2 == 0 && x == RunX(vals) && y == RunY(vals)
    ensures RunX(vals + [v]) == Int32(x + v) && RunY(vals + [v]) == y
    ensures Points(vals + [v]) == Points(vals)
  {
    RunsAfterX(vals, v, x, y);
    PointsAfterX(vals, v);
  }

  /** The running sums after an x value. */
  lemma RunsAfterX(vals: seq<int>, v: int, x: int, y: int)
    requires |vals| % 2 == 0 && x == RunX(vals) && y == RunY(vals)
    ensures RunX(vals + [v]) == Int32(x + v) && RunY(vals + [v]) == y
  {
    SumsAfter(vals, v);
    WrapAdd(DeltaSum(vals, 0), v);
  }

  /** A y value: lastY moves by its delta and the point (lastX, lastY)
      appears. */
  lemma StepY(vals: seq<int>, v: int, x: int, y: int)
    requires |vals| % 2 == 1 && x == RunX(vals) && y == RunY(vals)
    ensures RunX(vals + [v]) == x && RunY(vals + [v]) == Int32(y + v)
    ensures Points(vals + [v]) == Points(vals) + [Point(x, Int32(y + v))]
  {
    RunsAfterY(vals, v, x, y);
    PointsAfterY(vals, v);
  }

  /** The running sums after a y value. */
  lemma RunsAfterY(vals: seq<int>, v: int, x: int, y: int)
    requires |vals| % 2 == 1 && x == RunX(vals) && y == RunY(vals)
    ensures RunX(vals + [v]) == x && RunY(vals + [v]) == Int32(y + v)
  {
    SumsAfter(vals, v);
    WrapAdd(DeltaSum(vals, 1), v);
  }

  /** A y value appends one point, at the new (lastX, lastY). */
  lemma PointsAfterY(vals: seq<int>, y: int)
    requires |vals| % 2 == 1
    ensures Points(vals + [y]) == Points(vals) + [Point(RunX(vals + [y]), RunY(vals + [y]))]
  {
    PointsPair(vals, y);
    PointsOdd(vals);
  }

  /** The pair ending in a y value gives the last point. */
  lemma PointsPair(vals: seq<int>, y: int)
    requires |vals| % 2 == 1
    ensures Points(vals + [y]) == Points(vals[..|vals| - 1]) + [Point(RunX(vals + [y]), RunY(vals + [y]))]
  {
    hide RunX, RunY;
    var v := vals + [y];
    assert v[..|v| - 2] == vals[..|vals| - 1];
  }

  /** A trailing x value gives no point. */
  lemma PointsOdd(vals: seq<int>)
    requires |vals| % 2 == 1
    ensures Points(vals) == Points(vals[..|vals| - 1])
  {
    hide RunX, RunY;
    if |vals| < 2 {
      assert vals[..|vals| - 1] == [];
    }
  }

  /** An x value appends no point. */
  lemma PointsAfterX(vals: seq<int>, x: int)
    requires |vals| % 2 == 0
    ensures Points(vals + [x]) == Points(vals)
  {
    hide RunX, RunY;
    var v := vals + [x];
    assert v[..|v| - 1] == vals;
  }

  // ---------------------------------------------------------------------------
  // Filling the rings

  /** A ring of `slots` slots after its points `q` were written in order: the
      first |q| point slots hold them; a polygon's closing slot holds its
      first point once all of its points are there. */
  function FillRing(slots: nat, poly: bool, q: seq<Point>): (r: Ring)
    ensures |r| == slots
  {
    var n := PointsIn(slots, poly);
    seq(slots, j requires 0 <= j < slots =>
      if j < n then (if j < |q| then Some(q[j]) else None)
      else if |q| >= n && n > 0 then Some(q[0]) else None)
  }

  function RingsCap(rings: seq<nat>, poly: bool): nat {
    if rings == [] then 0 else PointsIn(rings[0], poly) + RingsCap(rings[1..], poly)
  }

  /** The number of points that fill every ring of every geometry. */
  function ShapeCap(shape: seq<seq<nat>>, poly: bool): nat {
    if shape == [] then 0 else RingsCap(shape[0], poly) + ShapeCap(shape[1..], poly)
  }

  /** The rings of one geometry after its points `pts` were written in order. */
  function FillRings(rings: seq<nat>, poly: bool, pts: seq<Point>): (r: Geom)
    ensures |r| == |rings|
  {
    if rings == [] then []
    else
      var n := Min(PointsIn(rings[0], poly), |pts|);
      [FillRing(rings[0], poly, pts[..n])] + FillRings(rings[1..], poly, pts[n..])
  }

  /** All geometries after the points `pts` were written in order, ring after
      ring and geometry after geometry. */
  function FillGeoms(shape: seq<seq<nat>>, poly: bool, pts: seq<Point>): (r: seq<Geom>)
    ensures |r| == |shape|
  {
    if shape == [] then []
    else
      var n := Min(RingsCap(shape[0], poly), |pts|);
      [FillRings(shape[0], poly, pts[..n])] + FillGeoms(shape[1..], poly, pts[n..])
  }

  /** The number of points before ring `r` of a geometry. */
  function RingOffset(rings: seq<nat>, poly: bool, r: nat): nat
    requires r <= |rings|
  {
    if r == 0 then 0 else PointsIn(rings[0], poly) + RingOffset(rings[1..], poly, r - 1)
  }

  /** The number of points before ring `r` of geometry `g`. */
  function Offset(shape: seq<seq<nat>>, poly: bool, g: nat, r: nat): nat
    requires g < |shape| && r <= |shape[g]|
  {
    if g == 0 then RingOffset(shape[0], poly, r)
    else RingsCap(shape[0], poly) + Offset(shape[1..], poly, g - 1, r)
  }

  /** What the decoder does with a new point at slot `num` of a ring: write
      it, and for a polygon whose closing slot comes next, copy the ring's
      first point there. */
  function Emit(ring: Ring, num: nat, p: Point, poly: bool): Ring
    requires num < |ring|
  {
    var r1 := ring[num := Some(p)];
    if poly && num + 1 == |ring| - 1 then r1[num + 1 := r1[0]] else r1
  }

  /** The content of slot `j` of a ring whose points are `pts[o..o + n]`:
      the point once it has been decoded, the ring's first point in the
      closing slot once the whole ring has, empty otherwise. */
  function SlotValue(pts: seq<Point>, o: nat, n: nat, j: nat): Option<Point> {
    if j < n then (if o + j < |pts| then Some(pts[o + j]) else None)
    else if o + n <= |pts| && n > 0 then Some(pts[o]) else None
  }

  /** Where a slot lands in the geometries after the points `pts`: at the
      point `Offset + j` when that one has been decoded, at the ring's first
      point for a completed polygon ring's closing slot, empty otherwise. So
      rings and geometries are filled strictly in order, each point goes to
      one slot, and every completed polygon ring is closed. */
  lemma {:induction false} FillSlot(shape: seq<seq<nat>>, poly: bool, pts: seq<Point>, g: nat, r: nat, j: nat)
    requires g < |shape| && r < |shape[g]| && j < shape[g][r]
    ensures |FillGeoms(shape, poly, pts)[g]| == |shape[g]| && |FillGeoms(shape, poly, pts)[g][r]| == shape[g][r]
    ensures FillGeoms(shape, poly, pts)[g][r][j]
              == SlotValue(pts, Offset(shape, poly, g, r), PointsIn(shape[g][r], poly), j)
    decreases g
  {
    FillSizes(shape, poly, pts, g, r);
    var m := Min(RingsCap(shape[0], poly), |pts|);
    if g == 0 {
      FillSlotFirst(shape, poly, pts, r, j);
    } else {
      FillGeomsTail(shape, poly, pts, g);
      assert shape[1..][g - 1] == shape[g];
      FillSlot(shape[1..], poly, pts[m..], g - 1, r, j);
      FillSlotRest(shape, poly, pts, g, r, j, FillGeoms(shape[1..], poly, pts[m..])[g - 1][r][j]);
    }
  }

  lemma FillGeomsTail(shape: seq<seq<nat>>, poly: bool, pts: seq<Point>, g: nat)
    requires 0 < g < |shape|
    ensures FillGeoms(shape, poly, pts)[g]
         == FillGeoms(shape[1..], poly, pts[Min(RingsCap(shape[0], poly), |pts|)..])[g - 1]
  {
  }

  lemma FillSlotRest(shape: seq<seq<nat>>, poly: bool, pts: seq<Point>, g: nat, r: nat, j: nat, x: Option<Point>)
    requires 0 < g < |shape| && r < |shape[g]| && j < shape[g][r]
    requires x == SlotValue(pts[Min(RingsCap(shape[0], poly), |pts|)..], Offset(shape[1..], poly, g - 1, r),
                            PointsIn(shape[g][r], poly), j)
    ensures x == SlotValue(pts, Offset(shape, poly, g, r), PointsIn(shape[g][r], poly), j)
  {
    SlotShift(pts, RingsCap(shape[0], poly), Offset(shape[1..], poly, g - 1, r), PointsIn(shape[g][r], poly), j, x);
  }

  lemma FillSlotFirst(shape: seq<seq<nat>>, poly: bool, pts: seq<Point>, r: nat, j: nat)
    requires 0 < |shape| && r < |shape[0]| && j < shape[0][r]
    ensures |FillGeoms(shape, poly, pts)[0][r]| == shape[0][r]
    ensures FillGeoms(shape, poly, pts)[0][r][j]
              == SlotValue(pts, RingOffset(shape[0], poly, r), PointsIn(shape[0][r], poly), j)
  {
    var m := Min(RingsCap(shape[0], poly), |pts|);
    assert FillGeoms(shape, poly, pts)[0] == FillRings(shape[0], poly, pts[..m]);
    FillRingsSlot(shape[0], poly, pts[..m], r, j);
    RingOffsetBound(shape[0], poly, r);
    SlotPrefix(pts, m, RingOffset(shape[0], poly, r), PointsIn(shape[0][r], poly), j);
  }

  lemma {:induction false} FillRingsSlot(rings: seq<nat>, poly: bool, pts: seq<Point>, r: nat, j: nat)
    requires r < |rings| && j < rings[r]
    ensures |FillRings(rings, poly, pts)[r]| == rings[r]
    ensures FillRings(rings, poly, pts)[r][j] == SlotValue(pts, RingOffset(rings, poly, r), PointsIn(rings[r], poly), j)
    decreases r
  {
    RingSizes(rings, poly, pts, r);
    if r == 0 {
      FillRingsSlotFirst(rings, poly, pts, j);
    } else {
      var m := Min(PointsIn(rings[0], poly), |pts|);
      FillRingsTail(rings, poly, pts, r);
      FillRingsSlot(rings[1..], poly, pts[m..], r - 1, j);
      FillRingsSlotRest(rings, poly, pts, r, j, FillRings(rings[1..], poly, pts[m..])[r - 1][j]);
    }
  }

  lemma FillRingsSlotFirst(rings: seq<nat>, poly: bool, pts: seq<Point>, j: nat)
    requires 0 < |rings| && j < rings[0]
    ensures FillRings(rings, poly, pts)[0][j] == SlotValue(pts, 0, PointsIn(rings[0], poly), j)
  {
    var m := Min(PointsIn(rings[0], poly), |pts|);
    assert FillRings(rings, poly, pts)[0] == FillRing(rings[0], poly, pts[..m]);
    FillRingSlot(rings[0], poly, pts[..m], j);
    SlotPrefix(pts, m, 0, PointsIn(rings[0], poly), j);
  }

  lemma FillRingsTail(rings: seq<nat>, poly: bool, pts: seq<Point>, r: nat)
    requires 0 < r < |rings|
    ensures FillRings(rings, poly, pts)[r]
         == FillRings(rings[1..], poly, pts[Min(PointsIn(rings[0], poly), |pts|)..])[r - 1]
  {
  }

  lemma FillRingsSlotRest(rings: seq<nat>, poly: bool, pts: seq<Point>, r: nat, j: nat, x: Option<Point>)
    requires 0 < r < |rings| && j < rings[r]
    requires x == SlotValue(pts[Min(PointsIn(rings[0], poly), |pts|)..], RingOffset(rings[1..], poly, r - 1),
                            PointsIn(rings[r], poly), j)
    ensures x == SlotValue(pts, RingOffset(rings, poly, r), PointsIn(rings[r], poly), j)
  {
    SlotShift(pts, PointsIn(rings[0], poly), RingOffset(rings[1..], poly, r - 1), PointsIn(rings[r], poly), j, x);
  }

  lemma FillRingSlot(slots: nat, poly: bool, q: seq<Point>, j: nat)
    requires j < slots && |q| <= PointsIn(slots, poly)
    ensures FillRing(slots, poly, q)[j] == SlotValue(q, 0, PointsIn(slots, poly), j)
  {
  }

  lemma SlotPrefix(pts: seq<Point>, m: nat, o: nat, n: nat, j: nat)
    requires m <= |pts| && (o + n <= m || m == |pts|)
    ensures SlotValue(pts[..m], o, n, j) == SlotValue(pts, o, n, j)
  {
  }

  lemma SlotDrop(pts: seq<Point>, m: nat, o: nat, n: nat, j: nat)
    requires m <= |pts|
    ensures SlotValue(pts[m..], o, n, j) == SlotValue(pts, m + o, n, j)
  {
  }

  /** Dropping the first `c` points (or all, when fewer were decoded) moves
      a slot's window back by `c`. */
  lemma SlotShift(pts: seq<Point>, c: nat, o: nat, n: nat, j: nat, x: Option<Point>)
    requires x == SlotValue(pts[Min(c, |pts|)..], o, n, j)
    ensures x == SlotValue(pts, c + o, n, j)
  {
    var m := Min(c, |pts|);
    SlotDrop(pts, m, o, n, j);
    if m < c {
      SlotBeyond(pts, m + o, n, j);
      SlotBeyond(pts, c + o, n, j);
    }
  }

  lemma SlotBeyond(pts: seq<Point>, o: nat, n: nat, j: nat)
    requires o >= |pts|
    ensures SlotValue(pts, o, n, j) == None
  {
  }

  lemma {:induction false} RingOffsetBound(rings: seq<nat>, poly: bool, r: nat)
    requires r < |rings|
    ensures RingOffset(rings, poly, r) + PointsIn(rings[r], poly) <= RingsCap(rings, poly)
    decreases r
  {
    if r > 0 {
      RingOffsetBound(rings[1..], poly, r - 1);
    }
  }

  /** The number of points before the next ring. */
  lemma {:induction false} RingOffsetNext(rings: seq<nat>, poly: bool, r: nat)
    requires r < |rings|
    ensures RingOffset(rings, poly, r + 1) == RingOffset(rings, poly, r) + PointsIn(rings[r], poly)
    decreases r
  {
    if r > 0 {
      RingOffsetNext(rings[1..], poly, r - 1);
    }
  }

  lemma {:induction false} RingOffsetAll(rings: seq<nat>, poly: bool)
    ensures RingOffset(rings, poly, |rings|) == RingsCap(rings, poly)
    decreases |rings|
  {
    if rings != [] {
      RingOffsetAll(rings[1..], poly);
    }
  }

  /** The points before the next geometry are those of all rings so far. */
  lemma {:induction false} OffsetNextGeom(shape: seq<seq<nat>>, poly: bool, g: nat)
    requires g + 1 < |shape|
    ensures Offset(shape, poly, g + 1, 0) == Offset(shape, poly, g, |shape[g]|)
    decreases g
  {
    if g == 0 {
      RingOffsetAll(shape[0], poly);
    } else {
      OffsetNextGeom(shape[1..], poly, g - 1);
    }
  }

  /** After the last ring of the last geometry come all points. */
  lemma {:induction false} OffsetLast(shape: seq<seq<nat>>, poly: bool, g: nat)
    requires g < |shape|
    ensures Offset(shape, poly, g, |shape[g]|) <= ShapeCap(shape, poly)
    ensures g == |shape| - 1 ==> Offset(shape, poly, g, |shape[g]|) == ShapeCap(shape, poly)
    decreases g
  {
    if g == 0 {
      RingOffsetAll(shape[0], poly);
    } else {
      OffsetLast(shape[1..], poly, g - 1);
    }
  }

  /** A well-shaped non-empty partition has room for a point. */
  lemma ShapeCapPositive(shape: seq<seq<nat>>, poly: bool)
    requires WellShaped(shape, poly) && shape != []
    ensures ShapeCap(shape, poly) >= 1 && PointsIn(shape[0][0], poly) >= 1
  {
    assert RingsCap(shape[0], poly) >= PointsIn(shape[0][0], poly);
  }

  /** Writing one more point changes the ring it goes to as Emit does, and
      nothing else. */
  lemma FillRingNext(slots: nat, poly: bool, q: seq<Point>, p: Point)
    requires |q| < PointsIn(slots, poly) && (poly ==> slots >= 2)
    ensures FillRing(slots, poly, q + [p]) == Emit(FillRing(slots, poly, q), |q|, p, poly)
  {
    var a := FillRing(slots, poly, q + [p]);
    var b := Emit(FillRing(slots, poly, q), |q|, p, poly);
    assert forall j :: 0 <= j < slots ==> a[j] == b[j];
  }

  lemma {:induction false} FillRingsNext(rings: seq<nat>, poly: bool, pts: seq<Point>, p: Point, r: nat, num: nat)
    requires WellRings(rings, poly) && r < |rings| && num < PointsIn(rings[r], poly)
    requires |pts| == RingOffset(rings, poly, r) + num
    ensures |FillRings(rings, poly, pts)[r]| == rings[r]
    ensures var f := FillRings(rings, poly, pts);
            FillRings(rings, poly, pts + [p]) == f[r := Emit(f[r], num, p, poly)]
    decreases r
  {
    RingSizes(rings, poly, pts, r);
    var n0 := PointsIn(rings[0], poly);
    var q := pts + [p];
    var f := FillRings(rings, poly, pts);
    if r == 0 {
      FillRingsFirst(rings, poly, pts, p);
    } else {
      var h := FillRing(rings[0], poly, pts[..n0]);
      var t := FillRings(rings[1..], poly, pts[n0..]);
      FillRingsShift(rings, poly, pts, p);
      WellRingsTail(rings, poly);
      FillRingsNext(rings[1..], poly, pts[n0..], p, r - 1, num);
      var t' := FillRings(rings[1..], poly, pts[n0..] + [p]);
      ConsReplace(h, t, t', f, FillRings(rings, poly, q), r, Emit(t[r - 1], num, p, poly));
    }
  }

  /** Past the first ring, one more point leaves the first ring alone. */
  lemma FillRingsShift(rings: seq<nat>, poly: bool, pts: seq<Point>, p: Point)
    requires rings != [] && PointsIn(rings[0], poly) <= |pts|
    ensures var n0 := PointsIn(rings[0], poly);
            FillRings(rings, poly, pts) == [FillRing(rings[0], poly, pts[..n0])] + FillRings(rings[1..], poly, pts[n0..])
    ensures var n0 := PointsIn(rings[0], poly);
            FillRings(rings, poly, pts + [p])
            == [FillRing(rings[0], poly, pts[..n0])] + FillRings(rings[1..], poly, pts[n0..] + [p])
  {
    var n0 := PointsIn(rings[0], poly);
    var q := pts + [p];
    assert Min(n0, |pts|) == n0 && Min(n0, |q|) == n0;
    assert FillRings(rings, poly, q) == [FillRing(rings[0], poly, q[..n0])] + FillRings(rings[1..], poly, q[n0..]);
    SnocSlices(pts, p, n0);
  }

  lemma WellRingsTail(rings: seq<nat>, poly: bool)
    requires rings != [] && WellRings(rings, poly)
    ensures WellRings(rings[1..], poly)
  {
    assert forall i :: 0 <= i < |rings[1..]| ==> rings[1..][i] == rings[i + 1];
  }

  lemma FillRingsFirst(rings: seq<nat>, poly: bool, pts: seq<Point>, p: Point)
    requires WellRings(rings, poly) && 0 < |rings| && |pts| < PointsIn(rings[0], poly)
    ensures |FillRings(rings, poly, pts)[0]| == rings[0]
    ensures var f := FillRings(rings, poly, pts);
            FillRings(rings, poly, pts + [p]) == f[0 := Emit(f[0], |pts|, p, poly)]
  {
    var q := pts + [p];
    var f := FillRings(rings, poly, pts);
    var t := FillRings(rings[1..], poly, []);
    assert q[..|q|] == q && pts[..|pts|] == pts;
    assert q[|q|..] == [] == pts[|pts|..];
    assert f == [FillRing(rings[0], poly, pts)] + t;
    assert FillRings(rings, poly, q) == [FillRing(rings[0], poly, q)] + t;
    FillRingNext(rings[0], poly, pts, p);
    ConsUpdate(FillRing(rings[0], poly, pts), t, 0, Emit(f[0], |pts|, p, poly));
  }

  lemma ConsReplace<T>(h: T, t: seq<T>, t': seq<T>, f: seq<T>, f': seq<T>, i: nat, x: T)
    requires 0 < i <= |t| && f == [h] + t && f' == [h] + t' && t' == t[i - 1 := x]
    ensures f[i] == t[i - 1] && f' == f[i := x]
  {
  }

  lemma ConsUpdate<T>(h: T, t: seq<T>, i: nat, x: T)
    requires i <= |t|
    ensures i == 0 ==> ([h] + t)[i := x] == [x] + t
    ensures 0 < i ==> ([h] + t)[i := x] == [h] + t[i - 1 := x]
  {
  }

  /** Writing one more point at the cursor (g, r, num) changes the geometries
      exactly as the decoder's write does. */
  lemma {:induction false} FillGeomsNext(shape: seq<seq<nat>>, poly: bool, pts: seq<Point>, p: Point,
                                          g: nat, r: nat, num: nat)
    requires WellShaped(shape, poly) && g < |shape| && r < |shape[g]| && num < PointsIn(shape[g][r], poly)
    requires |pts| == Offset(shape, poly, g, r) + num
    ensures |FillGeoms(shape, poly, pts)[g]| == |shape[g]| && |FillGeoms(shape, poly, pts)[g][r]| == shape[g][r]
    ensures var f := FillGeoms(shape, poly, pts);
            FillGeoms(shape, poly, pts + [p]) == f[g := f[g][r := Emit(f[g][r], num, p, poly)]]
    decreases g
  {
    FillSizes(shape, poly, pts, g, r);
    var c0 := RingsCap(shape[0], poly);
    var q := pts + [p];
    var f := FillGeoms(shape, poly, pts);
    if g == 0 {
      FillGeomsFirst(shape, poly, pts, p, r, num);
    } else {
      var h := FillRings(shape[0], poly, pts[..c0]);
      var t := FillGeoms(shape[1..], poly, pts[c0..]);
      FillGeomsShift(shape, poly, pts, p);
      WellShapedTail(shape, poly);
      assert shape[1..][g - 1] == shape[g];
      FillGeomsNext(shape[1..], poly, pts[c0..], p, g - 1, r, num);
      var t' := FillGeoms(shape[1..], poly, pts[c0..] + [p]);
      ConsReplace(h, t, t', f, FillGeoms(shape, poly, q), g, t[g - 1][r := Emit(t[g - 1][r], num, p, poly)]);
    }
  }

  lemma FillGeomsFirst(shape: seq<seq<nat>>, poly: bool, pts: seq<Point>, p: Point, r: nat, num: nat)
    requires WellShaped(shape, poly) && shape != [] && r < |shape[0]| && num < PointsIn(shape[0][r], poly)
    requires |pts| == RingOffset(shape[0], poly, r) + num
    ensures |FillGeoms(shape, poly, pts)[0]| == |shape[0]| && |FillGeoms(shape, poly, pts)[0][r]| == shape[0][r]
    ensures var f := FillGeoms(shape, poly, pts);
            FillGeoms(shape, poly, pts + [p]) == f[0 := f[0][r := Emit(f[0][r], num, p, poly)]]
  {
    FillSizes(shape, poly, pts, 0, r);
    var q := pts + [p];
    var f := FillGeoms(shape, poly, pts);
    var t := FillGeoms(shape[1..], poly, []);
    RingOffsetBound(shape[0], poly, r);
    WholeSlices(pts);
    WholeSlices(q);
    assert f == [FillRings(shape[0], poly, pts)] + t;
    assert FillGeoms(shape, poly, q) == [FillRings(shape[0], poly, q)] + t;
    FillRingsNext(shape[0], poly, pts, p, r, num);
    ConsUpdate(FillRings(shape[0], poly, pts), t, 0, f[0][r := Emit(f[0][r], num, p, poly)]);
  }

  lemma WholeSlices<T>(a: seq<T>)
    ensures a[..|a|] == a && a[|a|..] == []
  {
  }

  /** Past the first geometry, one more point leaves the first geometry alone. */
  lemma FillGeomsShift(shape: seq<seq<nat>>, poly: bool, pts: seq<Point>, p: Point)
    requires shape != [] && RingsCap(shape[0], poly) <= |pts|
    ensures var c0 := RingsCap(shape[0], poly);
            FillGeoms(shape, poly, pts) == [FillRings(shape[0], poly, pts[..c0])] + FillGeoms(shape[1..], poly, pts[c0..])
    ensures var c0 := RingsCap(shape[0], poly);
            FillGeoms(shape, poly, pts + [p])
            == [FillRings(shape[0], poly, pts[..c0])] + FillGeoms(shape[1..], poly, pts[c0..] + [p])
  {
    var c0 := RingsCap(shape[0], poly);
    var q := pts + [p];
    assert Min(c0, |pts|) == c0 && Min(c0, |q|) == c0;
    assert FillGeoms(shape, poly, q) == [FillRings(shape[0], poly, q[..c0])] + FillGeoms(shape[1..], poly, q[c0..]);
    SnocSlices(pts, p, c0);
  }

  lemma SnocSlices<T>(a: seq<T>, x: T, n: nat)
    requires n <= |a|
    ensures (a + [x])[..n] == a[..n] && (a + [x])[n..] == a[n..] + [x]
  {
  }

  lemma WellShapedTail(shape: seq<seq<nat>>, poly: bool)
    requires shape != [] && WellShaped(shape, poly)
    ensures WellShaped(shape[1..], poly)
  {
    assert forall i :: 0 <= i < |shape[1..]| ==> shape[1..][i] == shape[i + 1];
  }

  /** Every ring has as many slots as the partition gives it. */
  lemma {:induction false} FillSizes(shape: seq<seq<nat>>, poly: bool, pts: seq<Point>, g: nat, r: nat)
    requires g < |shape| && r < |shape[g]|
    ensures |FillGeoms(shape, poly, pts)[g]| == |shape[g]|
    ensures |FillGeoms(shape, poly, pts)[g][r]| == shape[g][r]
    decreases g
  {
    var m := Min(RingsCap(shape[0], poly), |pts|);
    if g == 0 {
      RingSizes(shape[0], poly, pts[..m], r);
    } else {
      FillSizes(shape[1..], poly, pts[m..], g - 1, r);
    }
  }

  lemma {:induction false} RingSizes(rings: seq<nat>, poly: bool, pts: seq<Point>, r: nat)
    requires r < |rings|
    ensures |FillRings(rings, poly, pts)[r]| == rings[r]
    decreases r
  {
    var m := Min(PointsIn(rings[0], poly), |pts|);
    if r > 0 {
      RingSizes(rings[1..], poly, pts[m..], r - 1);
    }
  }

  /** The geometries as allocated: every slot null. */
  function Blank(shape: seq<seq<nat>>): (r: seq<Geom>)
    ensures |r| == |shape|
  {
    if shape == [] then [] else [BlankRings(shape[0])] + Blank(shape[1..])
  }

  function BlankRings(rings: seq<nat>): (r: Geom)
    ensures |r| == |rings|
  {
    if rings == [] then [] else [seq(rings[0], j => None)] + BlankRings(rings[1..])
  }

  /** Before any point is decoded every slot is empty. */
  lemma {:induction false} BlankIsFill(shape: seq<seq<nat>>, poly: bool)
    ensures Blank(shape) == FillGeoms(shape, poly, [])
    decreases |shape|
  {
    if shape != [] {
      var e: seq<Point> := [];
      assert e[..0] == e && e[0..] == e;
      BlankRingsIsFill(shape[0], poly);
      BlankIsFill(shape[1..], poly);
    }
  }

  lemma {:induction false} BlankRingsIsFill(rings: seq<nat>, poly: bool)
    ensures BlankRings(rings) == FillRings(rings, poly, [])
    decreases |rings|
  {
    if rings != [] {
      var e: seq<Point> := [];
      assert e[..0] == e && e[0..] == e;
      assert FillRing(rings[0], poly, []) == seq(rings[0], j => None);
      BlankRingsIsFill(rings[1..], poly);
    }
  }

  // ---------------------------------------------------------------------------
  // The coordinate loop

  /** The loop of decodeInterleavedPoints over the coordinate bytes `s[pos..]`
      up to `end`: one varint per turn (the five-byte reader, narrowed to a
      Java int and de-zigzagged into a delta) until the declared bytes are used up or `limit` values (two
      per slot to fill) were read, after which the bytes consumed must equal
      the declared count. */
  function CoordLoop(s: seq<byte>, pos: nat, end: int, limit: nat, vals: seq<int>): (r: Decoded<seq<int>>)
    requires pos <= |s|
    ensures r.Ok? ==> r.used == end <= |s| && |vals| <= |r.value| && r.value[..|vals|] == vals
    ensures r.Ok? && |vals| <= limit ==> |r.value| <= limit
    decreases |s| - pos
  {
    if pos >= end || |vals| >= limit then
      if pos == end then Ok(vals, pos) else Fail(InvalidArray)
    else
      match Varint5(s[pos..])
      case Fail(e) => Fail(e)
      case Ok(v, k) => CoordLoop(s, pos + k, end, limit, vals + [DeZigZag(Int32(v))])
  }

  /** decodeInterleavedPoints after its byte count, on the bytes `s` that
      follow it: the values, then the rings filled with the points. */
  function PointsLoop(s: seq<byte>, bytes: int, shape: seq<seq<nat>>, poly: bool): (r: Decoded<seq<Geom>>)
    ensures r.Ok? ==> r.used == bytes <= |s| && |r.value| == |shape|
  {
    match CoordLoop(s, 0, bytes, 2 * ShapeCap(shape, poly), [])
    case Fail(e) => Fail(e)
    case Ok(vals, used) => Ok(FillGeoms(shape, poly, Points(vals)), used)
  }

  /** decodeInterleavedPoints on the content `c`: the byte count, the index
      (null is dereferenced), its partition (an empty one fails on its first
      element), then the coordinate loop. */
  function InterleavedPoints(c: seq<byte>, index: Option<seq<short>>, poly: bool): (r: Decoded<seq<Geom>>)
    ensures r.Ok? ==> r.used <= |c|
  {
    match Varint32(c)
    case Fail(e) => Fail(e)
    case Ok(bytes, n) =>
      if index.None? then Fail(NullReference)
      else
        var shape := Partition(index.value, 0, poly);
        if shape == [] then Fail(OutOfBounds)
        else
          match PointsLoop(c[n..], bytes, shape, poly)
          case Fail(e) => Fail(e)
          case Ok(geoms, used) => Ok(geoms, n + used)
  }

  /** The coordinate bytes consumed equal the declared count, and there is
      one geometry per part of the partition. */
  lemma InterleavedPointsCount(c: seq<byte>, index: Option<seq<short>>, poly: bool)
    requires InterleavedPoints(c, index, poly).Ok?
    ensures var r := InterleavedPoints(c, index, poly);
            Varint32(c).Ok? && index.Some?
            && r.used == Varint32(c).used + Varint32(c).value
            && |r.value| == |Partition(index.value, 0, poly)| >= 1
  {
  }

  /** The coordinate loop on the buffered window agrees with the loop on the
      whole content when the window holds the declared count or all of the
      content: a varint the window cuts short ends past the declared count,
      so both fail. */
  lemma {:induction false} CoordLoopWindow(w: seq<byte>, p: seq<byte>, pos: nat, end: int, limit: nat,
                                           vals: seq<int>)
    requires pos <= |w| && (end <= |w| || p == [])
    ensures Agrees(CoordLoop(w, pos, end, limit, vals), CoordLoop(w + p, pos, end, limit, vals))
    decreases |w| - pos, 1
  {
    var c := w + p;
    if pos < end && |vals| < limit {
      assert c[pos..][..|w| - pos] == w[pos..];
      if Varint5(w[pos..]) != Fail(Truncated) {
        CoordWindowDecoded(w, p, pos, end, limit, vals);
      } else if p != [] {
        CoordWindowCut(w, p, pos, end, limit, vals);
      } else {
        assert c == w;
      }
    } else {
      CoordDone(w, pos, end, limit, vals);
      CoordDone(c, pos, end, limit, vals);
    }
  }

  /** A value the window holds whole decodes the same from the content. */
  lemma {:induction false} CoordWindowDecoded(w: seq<byte>, p: seq<byte>, pos: nat, end: int, limit: nat,
                                              vals: seq<int>)
    requires pos < end && pos <= |w| && |vals| < limit && (end <= |w| || p == [])
    requires Varint5(w[pos..]) != Fail(Truncated) && (w + p)[pos..][..|w| - pos] == w[pos..]
    ensures Agrees(CoordLoop(w, pos, end, limit, vals), CoordLoop(w + p, pos, end, limit, vals))
    decreases |w| - pos, 0
  {
    var c := w + p;
    var d := Varint5(w[pos..]);
    Varint5Extend(c[pos..], |w| - pos);
    if d.Ok? {
      CoordLoopWindow(w, p, pos + d.used, end, limit, vals + [DeZigZag(Int32(d.value))]);
    }
    CoordAgreeStep(w, c, pos, end, limit, vals);
  }

  /** Two byte strings whose next value decodes alike: the coordinate loops
      on them agree when they agree after that value. */
  lemma CoordAgreeStep(s: seq<byte>, t: seq<byte>, pos: nat, end: int, limit: nat, vals: seq<int>)
    requires pos < end && pos <= |s| && pos <= |t| && |vals| < limit && Varint5(s[pos..]) == Varint5(t[pos..])
    requires Varint5(s[pos..]).Ok? ==>
               var d := Varint5(s[pos..]);
               Agrees(CoordLoop(s, pos + d.used, end, limit, vals + [DeZigZag(Int32(d.value))]),
                      CoordLoop(t, pos + d.used, end, limit, vals + [DeZigZag(Int32(d.value))]))
    ensures Agrees(CoordLoop(s, pos, end, limit, vals), CoordLoop(t, pos, end, limit, vals))
  {
  }

  /** A value the window cuts short: the loop fails on the window, and on
      the content the value either fails or ends past the declared count. */
  lemma CoordWindowCut(w: seq<byte>, p: seq<byte>, pos: nat, end: int, limit: nat, vals: seq<int>)
    requires pos < end <= |w| && |vals| < limit && Varint5(w[pos..]) == Fail(Truncated)
    requires (w + p)[pos..][..|w| - pos] == w[pos..]
    ensures CoordLoop(w, pos, end, limit, vals).Fail? && CoordLoop(w + p, pos, end, limit, vals).Fail?
  {
    var c := w + p;
    var e := Varint5(c[pos..]);
    if e.Ok? {
      if e.used <= |w| - pos {
        Protobuf.Varint5Prefix(c[pos..], |w| - pos);
        assert false;
      }
      CoordLoopPast(c, pos + e.used, end, limit, vals + [DeZigZag(Int32(e.value))]);
    }
  }

  /** Once past the declared count, the coordinate loop fails. */
  lemma CoordLoopPast(s: seq<byte>, pos: nat, end: int, limit: nat, vals: seq<int>)
    requires end < pos <= |s|
    ensures CoordLoop(s, pos, end, limit, vals).Fail?
  {
  }

  /** The write cursor (geometry g, ring r, slot num) is where point number
      |pts| goes. */
  /** decodeInterleavedPoints after its refill: the points read from the
      buffered window agree with those of the whole content when the window
      holds the declared count or all of the content. */
  lemma PointsLoopWindow(w: seq<byte>, p: seq<byte>, bytes: int, shape: seq<seq<nat>>, poly: bool)
    requires bytes <= |w| || p == []
    ensures Agrees(PointsLoop(w, bytes, shape, poly), PointsLoop(w + p, bytes, shape, poly))
  {
    CoordLoopWindow(w, p, 0, bytes, 2 * ShapeCap(shape, poly), []);
  }

  ghost predicate AtCursor(shape: seq<seq<nat>>, poly: bool, pts: seq<Point>, g: int, r: int, num: int) {
    WellShaped(shape, poly)
    && 0 <= g < |shape| && 0 <= r < |shape[g]| && 0 <= num < PointsIn(shape[g][r], poly)
    && Offset(shape, poly, g, r) + num == |pts|
  }

  /** The cursor moves of decodeInterleavedPoints after a point was written
      and `num` advanced past it (and past the closing slot): on to the next
      ring when this one is full, on to the next geometry after its last
      ring, and out of the loop after the last geometry, which is exactly
      when every point slot holds a point. */
  method NextSlot(shape: seq<seq<nat>>, poly: bool, ghost pts: seq<Point>, g: int, r: int, num: int)
    returns (g': int, r': int, num': int, done: bool)
    requires WellShaped(shape, poly) && 0 <= g < |shape| && 0 <= r < |shape[g]|
    requires 1 <= num <= shape[g][r] && (num < PointsIn(shape[g][r], poly) || num == shape[g][r])
    requires |pts| == Offset(shape, poly, g, r) + Min(num, PointsIn(shape[g][r], poly))
    ensures done <==> |pts| == ShapeCap(shape, poly)
    ensures !done ==> AtCursor(shape, poly, pts, g', r', num')
  {
    if num < shape[g][r] {
      OffsetWithin(shape, poly, g, r);
      return g, r, num, false;
    }
    RingFull(shape, poly, pts, g, r);
    if r + 1 < |shape[g]| {
      OffsetWithin(shape, poly, g, r + 1);
      return g, r + 1, 0, false;
    }
    OffsetLast(shape, poly, g);
    if g + 1 == |shape| {
      return g, r, num, true;
    }
    GeomFull(shape, poly, pts, g);
    return g + 1, 0, 0, false;
  }

  /** After the last point of ring r, the points written are those before
      ring r + 1. */
  lemma RingFull(shape: seq<seq<nat>>, poly: bool, pts: seq<Point>, g: nat, r: nat)
    requires g < |shape| && r < |shape[g]|
    requires |pts| == Offset(shape, poly, g, r) + PointsIn(shape[g][r], poly)
    ensures |pts| == Offset(shape, poly, g, r + 1)
  {
    RingOffsetNext(shape[g], poly, r);
    OffsetRing(shape, poly, g, r);
    OffsetRing(shape, poly, g, r + 1);
  }

  /** After the last ring of geometry g, the cursor goes to the first slot
      of geometry g + 1. */
  lemma GeomFull(shape: seq<seq<nat>>, poly: bool, pts: seq<Point>, g: nat)
    requires WellShaped(shape, poly) && g + 1 < |shape| && |pts| == Offset(shape, poly, g, |shape[g]|)
    ensures |pts| != ShapeCap(shape, poly) && AtCursor(shape, poly, pts, g + 1, 0, 0)
  {
    OffsetNextGeom(shape, poly, g);
    OffsetWithin(shape, poly, g + 1, 0);
  }

  /** The write of a decoded point at the cursor: into its slot, the ring's
      first point into the closing slot when a polygon ring is full, then on
      to the next slot. The geometries become those after one more point. */
  method WritePoint(shape: seq<seq<nat>>, poly: bool, geoms: seq<Geom>, ghost pts: seq<Point>,
                    g: int, r: int, num: int, p: Point)
    returns (geoms': seq<Geom>, g': int, r': int, num': int, done: bool)
    requires AtCursor(shape, poly, pts, g, r, num) && geoms == FillGeoms(shape, poly, pts)
    ensures geoms' == FillGeoms(shape, poly, pts + [p])
    ensures done <==> |pts| + 1 == ShapeCap(shape, poly)
    ensures !done ==> AtCursor(shape, poly, pts + [p], g', r', num')
  {
    FillSizes(shape, poly, pts, g, r);
    FillGeomsNext(shape, poly, pts, p, g, r, num);
    var rg := geoms[g][r];
    rg := rg[num := Some(p)];
    var n := num + 1;
    // close polygon
    if poly && n == |rg| - 1 {
      rg := rg[n := rg[0]];
      n := n + 1;
    }
    geoms' := geoms[g := geoms[g][r := rg]];
    g', r', num', done := NextSlot(shape, poly, pts + [p], g, r, n);
  }

  /** One turn of the coordinate loop. */
  lemma CoordStep(s: seq<byte>, pos: nat, end: int, limit: nat, vals: seq<int>)
    requires pos <= |s| && pos < end && |vals| < limit
    ensures Varint5(s[pos..]).Fail? ==> CoordLoop(s, pos, end, limit, vals) == Fail(Varint5(s[pos..]).error)
    ensures Varint5(s[pos..]).Ok? ==> pos + Varint5(s[pos..]).used <= |s|
    ensures Varint5(s[pos..]).Ok? ==>
              CoordLoop(s, pos, end, limit, vals)
              == CoordLoop(s, pos + Varint5(s[pos..]).used, end, limit, vals + [DeZigZag(Int32(Varint5(s[pos..]).value))])
  {
  }

  /** The coordinate loop from the offset `off` into the window `w`, with
      the values `vals` read so far, gives what it gives from the start. */
  ghost predicate CoordInv(w: seq<byte>, bytes: int, limit: nat, off: int, vals: seq<int>) {
    0 <= off <= |w| && CoordLoop(w, off, bytes, limit, vals) == CoordLoop(w, 0, bytes, limit, [])
  }

  /** lastX and lastY are the running sums of the values read so far, and
      `even` says that the next value is an x value. */
  ghost predicate RunInv(vals: seq<int>, lastX: int, lastY: int, even: bool) {
    lastX == RunX(vals) && lastY == RunY(vals) && even == (|vals| % 2 == 0)
  }

  /** The geometries hold the points of the values read so far, and the
      cursor is where the next point goes unless every slot is filled. */
  ghost predicate FillInv(shape: seq<seq<nat>>, poly: bool, vals: seq<int>, geoms: seq<Geom>,
                          g: int, r: int, num: int, done: bool)
  {
    geoms == FillGeoms(shape, poly, Points(vals))
    && (done ==> |vals| == 2 * ShapeCap(shape, poly))
    && (!done ==> AtCursor(shape, poly, Points(vals), g, r, num) && |vals| < 2 * ShapeCap(shape, poly))
  }

  lemma FillInit(shape: seq<seq<nat>>, poly: bool)
    requires WellShaped(shape, poly) && shape != []
    ensures FillInv(shape, poly, [], Blank(shape), 0, 0, 0, false)
  {
    ShapeCapPositive(shape, poly);
    BlankIsFill(shape, poly);
  }

  /** One more value read from the window. */
  lemma CoordNext(w: seq<byte>, bytes: int, limit: nat, off: int, vals: seq<int>, raw: nat, k: nat)
    requires CoordInv(w, bytes, limit, off, vals) && off < bytes && |vals| < limit
    requires Varint5(w[off..]) == Ok(raw, k)
    ensures CoordInv(w, bytes, limit, off + k, vals + [DeZigZag(Int32(raw))])
  {
    CoordStep(w, off, bytes, limit, vals);
  }

  /** A value the window cannot supply ends the loop with its error. */
  lemma CoordFail(w: seq<byte>, bytes: int, limit: nat, off: int, vals: seq<int>)
    requires CoordInv(w, bytes, limit, off, vals) && off < bytes && |vals| < limit
    requires Varint5(w[off..]).Fail?
    ensures CoordLoop(w, 0, bytes, limit, []) == Fail(Varint5(w[off..]).error)
  {
    CoordStep(w, off, bytes, limit, vals);
  }

  /** Once the declared bytes are used up or every slot is filled, the loop's
      result is the coordinate loop's. */
  lemma CoordExit(w: seq<byte>, bytes: int, shape: seq<seq<nat>>, poly: bool, off: int, vals: seq<int>,
                  geoms: seq<Geom>, g: int, r: int, num: int, done: bool)
    requires CoordInv(w, bytes, 2 * ShapeCap(shape, poly), off, vals)
    requires FillInv(shape, poly, vals, geoms, g, r, num, done)
    requires off >= bytes || done
    ensures PointsLoop(w, bytes, shape, poly) == if off == bytes then Ok(geoms, bytes) else Fail(InvalidArray)
  {
    CoordDone(w, off, bytes, 2 * ShapeCap(shape, poly), vals);
  }

  /** While slots are left, the cursor and the geometries are ready for the
      next point. */
  lemma FillReady(shape: seq<seq<nat>>, poly: bool, vals: seq<int>, geoms: seq<Geom>, g: int, r: int, num: int)
    requires FillInv(shape, poly, vals, geoms, g, r, num, false)
    ensures AtCursor(shape, poly, Points(vals), g, r, num) && geoms == FillGeoms(shape, poly, Points(vals))
    ensures |vals| < 2 * ShapeCap(shape, poly)
  {
  }

  /** An x value leaves the geometries and the cursor as they are. */
  lemma FillX(shape: seq<seq<nat>>, poly: bool, vals: seq<int>, geoms: seq<Geom>, g: int, r: int, num: int, v: int)
    requires FillInv(shape, poly, vals, geoms, g, r, num, false) && |vals| % 2 == 0
    ensures FillInv(shape, poly, vals + [v], geoms, g, r, num, false)
  {
    PointsAfterX(vals, v);
    OffsetWithin(shape, poly, g, r);
  }

  /** A y value adds the point the decoder writes. */
  lemma FillY(shape: seq<seq<nat>>, poly: bool, vals: seq<int>, v: int, p: Point,
              geoms': seq<Geom>, g': int, r': int, num': int, done: bool)
    requires |vals| % 2 == 1 && Points(vals + [v]) == Points(vals) + [p]
    requires geoms' == FillGeoms(shape, poly, Points(vals) + [p])
    requires done <==> |Points(vals)| + 1 == ShapeCap(shape, poly)
    requires !done ==> AtCursor(shape, poly, Points(vals) + [p], g', r', num')
    ensures FillInv(shape, poly, vals + [v], geoms', g', r', num', done)
  {
    if !done {
      OffsetWithin(shape, poly, g', r');
    }
  }

  lemma WindowTail(buf: seq<byte>, start: nat, fill: nat, pos: nat)
    requires start <= pos <= fill <= |buf|
    ensures buf[pos..fill] == buf[start..fill][pos - start..]
  {
  }

  /** The decoder's running state after the values `vals`: the running
      sums, the x/y phase, and the geometries filled up to the cursor. */
  ghost predicate ScanInv(shape: seq<seq<nat>>, poly: bool, vals: seq<int>, geoms: seq<Geom>,
                          lastX: int, lastY: int, even: bool, g: int, r: int, num: int, done: bool)
  {
    RunInv(vals, lastX, lastY, even) && FillInv(shape, poly, vals, geoms, g, r, num, done)
  }

  /** One delta taken in: an x delta moves lastX, a y delta moves lastY
      and writes the point (lastX, lastY) at the cursor. */
  method Accept(shape: seq<seq<nat>>, poly: bool, ghost vals: seq<int>, s: int, geoms: seq<Geom>,
                lastX: int, lastY: int, even: bool, g: int, r: int, num: int)
    returns (geoms': seq<Geom>, lastX': int, lastY': int, even': bool, g': int, r': int, num': int, done: bool)
    requires ScanInv(shape, poly, vals, geoms, lastX, lastY, even, g, r, num, false)
    ensures ScanInv(shape, poly, vals + [s], geoms', lastX', lastY', even', g', r', num', done)
  {
    if even {
      AcceptX(shape, poly, vals, s, geoms, lastX, lastY, g, r, num);
      return geoms, Int32(lastX + s), lastY, false, g, r, num, false;
    }
    lastY' := Int32(lastY + s);
    geoms', g', r', num', done := AcceptY(shape, poly, vals, s, geoms, lastX, lastY, g, r, num);
    lastX', even' := lastX, true;
  }

  /** An x value: lastX moves by its delta, the geometries and the cursor
      stay. */
  lemma AcceptX(shape: seq<seq<nat>>, poly: bool, vals: seq<int>, s: int, geoms: seq<Geom>,
                lastX: int, lastY: int, g: int, r: int, num: int)
    requires ScanInv(shape, poly, vals, geoms, lastX, lastY, true, g, r, num, false)
    ensures ScanInv(shape, poly, vals + [s], geoms, Int32(lastX + s), lastY, false, g, r, num, false)
  {
    StepX(vals, s, lastX, lastY);
    FillX(shape, poly, vals, geoms, g, r, num, s);
  }

  /** A y value: lastY moves by its delta and the point (lastX, lastY) is
      written at the cursor. */
  method AcceptY(shape: seq<seq<nat>>, poly: bool, ghost vals: seq<int>, s: int, geoms: seq<Geom>,
                 lastX: int, lastY: int, g: int, r: int, num: int)
    returns (geoms': seq<Geom>, g': int, r': int, num': int, done: bool)
    requires ScanInv(shape, poly, vals, geoms, lastX, lastY, false, g, r, num, false)
    ensures ScanInv(shape, poly, vals + [s], geoms', lastX, Int32(lastY + s), true, g', r', num', done)
  {
    FillReady(shape, poly, vals, geoms, g, r, num);
    StepY(vals, s, lastX, lastY);
    var p := Point(lastX, Int32(lastY + s));
    geoms', g', r', num', done := WritePoint(shape, poly, geoms, Points(vals), g, r, num, p);
    FillY(shape, poly, vals, s, p, geoms', g', r', num', done);
  }

  lemma ScanReady(shape: seq<seq<nat>>, poly: bool, vals: seq<int>, geoms: seq<Geom>,
                  lastX: int, lastY: int, even: bool, g: int, r: int, num: int)
    requires ScanInv(shape, poly, vals, geoms, lastX, lastY, even, g, r, num, false)
    ensures |vals| < 2 * ShapeCap(shape, poly)
  {
  }

  /** The next coordinate value, read at `pos` from the buffered window
      buf[start..fill): the coordinate loop goes on from after it, or ends
      with the error the read gives. */
  method ReadCoord(buf: array<byte>, start: int, fill: int, pos: int, ghost w: seq<byte>, ghost off: int,
                   ghost bytes: int, ghost limit: nat, ghost vals: seq<int>)
    returns (v: Decoded<nat>)
    requires 0 <= start <= pos <= fill <= buf.Length && w == buf[start..fill] && off == pos - start
    requires CoordInv(w, bytes, limit, off, vals) && off < bytes && |vals| < limit
    ensures v.Fail? ==> CoordLoop(w, 0, bytes, limit, []) == Fail(v.error)
    ensures v.Ok? ==> 0 < v.used && pos + v.used <= fill
    ensures v.Ok? ==> CoordInv(w, bytes, limit, off + v.used, vals + [DeZigZag(Int32(v.value))])
  {
    WindowTail(buf[..], start, fill, pos);
    v := Protobuf.ScanVarint5(buf, pos, fill);
    if v.Fail? {
      CoordFail(w, bytes, limit, off, vals);
    } else {
      CoordNext(w, bytes, limit, off, vals, v.value, v.used);
    }
  }

  /** The loop of decodeInterleavedPoints over the buffered window
      buf[start..fill), once the byte count `bytes` is known and the index
      was partitioned into `shape`. */
  method ScanPoints(buf: array<byte>, start: int, fill: int, bytes: int, shape: seq<seq<nat>>, poly: bool)
    returns (r: Decoded<seq<Geom>>)
    requires 0 <= start <= fill <= buf.Length
    requires WellShaped(shape, poly) && shape != []
    ensures r == PointsLoop(buf[start..fill], bytes, shape, poly)
  {
    hide CoordLoop, FillGeoms, Points, FillRings, FillRing, WellShaped, Partition, Offset, Emit, SlotValue;
    ghost var w := buf[start..fill];
    ghost var limit := 2 * ShapeCap(shape, poly);
    FillInit(shape, poly);
    var geoms := Blank(shape);
    var lastX, lastY := 0, 0;
    var even := true;
    var pos := start;
    var end := pos + bytes;
    var curGeom, ring, num := 0, 0, 0;
    var done := false;
    ghost var vals: seq<int> := [];
    ghost var off: nat := 0;
    while pos < end && !done
      invariant start <= pos <= fill && off == pos - start && w == buf[start..fill]
      invariant CoordInv(w, bytes, limit, off, vals) == true
      invariant ScanInv(shape, poly, vals, geoms, lastX, lastY, even, curGeom, ring, num, done) == true
      decreases end - pos
    {
      var v, s;
      v, s, geoms, lastX, lastY, even, curGeom, ring, num, done :=
        ScanValue(buf, start, fill, pos, w, off, bytes, limit, shape, poly, vals, geoms, lastX, lastY, even,
                  curGeom, ring, num);
      if v.Fail? {
        return Fail(v.error);
      }
      pos := pos + v.used;
      vals := vals + [s];
      off := off + v.used;
    }
    CoordExit(w, bytes, shape, poly, off, vals, geoms, curGeom, ring, num, done);
    if pos != start + bytes {
      return Fail(InvalidArray);
    }
    r := Ok(geoms, bytes);
  }

  /** One pass of the loop: read the next value, de-zigzag it and take it
      in. */
  method ScanValue(buf: array<byte>, start: int, fill: int, pos: int, ghost w: seq<byte>, ghost off: int,
                   bytes: int, ghost limit: nat, shape: seq<seq<nat>>, poly: bool, ghost vals: seq<int>,
                   geoms: seq<Geom>, lastX: int, lastY: int, even: bool, g: int, r: int, num: int)
    returns (v: Decoded<nat>, s: int, geoms': seq<Geom>, lastX': int, lastY': int, even': bool,
             g': int, r': int, num': int, done: bool)
    requires 0 <= start <= pos <= fill <= buf.Length && w == buf[start..fill] && pos - start < bytes
    requires off == pos - start && limit == 2 * ShapeCap(shape, poly)
    requires CoordInv(w, bytes, limit, off, vals)
    requires ScanInv(shape, poly, vals, geoms, lastX, lastY, even, g, r, num, false)
    ensures v.Fail? ==> CoordLoop(w, 0, bytes, limit, []) == Fail(v.error)
    ensures v.Ok? ==> 0 < v.used && pos + v.used <= fill
    ensures v.Ok? ==> CoordInv(w, bytes, limit, off + v.used, vals + [s])
    ensures v.Ok? ==> ScanInv(shape, poly, vals + [s], geoms', lastX', lastY', even', g', r', num', done)
  {
    ScanReady(shape, poly, vals, geoms, lastX, lastY, even, g, r, num);
    v := ReadCoord(buf, start, fill, pos, w, off, bytes, limit, vals);
    if v.Fail? {
      return v, 0, geoms, lastX, lastY, even, g, r, num, false;
    }
    var val := Int32(v.value);
    // zigzag decoding
    s := DeZigZag(val);
    geoms', lastX', lastY', even', g', r', num', done :=
      Accept(shape, poly, vals, s, geoms, lastX, lastY, even, g, r, num);
  }

  /** The coordinate loop ends once the declared bytes are used up or every
      slot has its point. */
  lemma CoordDone(s: seq<byte>, pos: nat, end: int, limit: nat, vals: seq<int>)
    requires pos <= |s| && (pos >= end || |vals| >= limit)
    ensures CoordLoop(s, pos, end, limit, vals) == if pos == end then Ok(vals, pos) else Fail(InvalidArray)
  {
  }

  /** A cursor inside a ring lies below the number of all points. */
  lemma OffsetWithin(shape: seq<seq<nat>>, poly: bool, g: nat, r: nat)
    requires WellShaped(shape, poly) && g < |shape| && r < |shape[g]|
    ensures Offset(shape, poly, g, r) + PointsIn(shape[g][r], poly) <= ShapeCap(shape, poly)
  {
    OffsetRing(shape, poly, g, r);
    RingOffsetBound(shape[g], poly, r);
    OffsetLast(shape, poly, g);
    RingOffsetAll(shape[g], poly);
  }

  /** The offset of a ring is that of its geometry plus the rings before it. */
  lemma {:induction false} OffsetRing(shape: seq<seq<nat>>, poly: bool, g: nat, r: nat)
    requires g < |shape| && r <= |shape[g]|
    ensures Offset(shape, poly, g, r) == Offset(shape, poly, g, 0) + RingOffset(shape[g], poly, r)
    decreases g
  {
    if g > 0 {
      OffsetRing(shape[1..], poly, g - 1, r);
    }
  }
}
