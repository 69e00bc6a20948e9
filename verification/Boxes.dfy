/** Boxes: growing and intersecting bounds, and the boxes of octree keys. */
module Boxes {
  import opened Basics
  import opened Octree

  /** A coordinate of a box; the default bounds use the infinities. */
  datatype Coord = NegInf | Fin(r: real) | PosInf

  predicate Le(a: Coord, b: Coord)
  {
    a.NegInf? || b.PosInf? || (a.Fin? && b.Fin? && a.r <= b.r)
  }

  /** `std::min` and `std::max`. */
  function Least(a: Coord, b: Coord): Coord
  {
    if Le(a, b) then a else b
  }

  function Greatest(a: Coord, b: Coord): Coord
  {
    if Le(b, a) then a else b
  }

  datatype Vector<+T> = Vector(x: T, y: T, z: T)

  type Position = Vector<real>

  datatype Box = Box(min: Vector<Coord>, max: Vector<Coord>)

  /** `Bounds{}`: no point has been seen. */
  const EMPTY: Box := Box(Vector(PosInf, PosInf, PosInf), Vector(NegInf, NegInf, NegInf))

  function Finite(min: Position, max: Position): Box
  {
    Box(Vector(Fin(min.x), Fin(min.y), Fin(min.z)), Vector(Fin(max.x), Fin(max.y), Fin(max.z)))
  }

  predicate Between(lo: Coord, p: real, hi: Coord)
  {
    Le(lo, Fin(p)) && Le(Fin(p), hi)
  }

  predicate InBox(p: Position, b: Box)
  {
    Between(b.min.x, p.x, b.max.x) && Between(b.min.y, p.y, b.max.y) && Between(b.min.z, p.z, b.max.z)
  }

  /** Is `inner` no further out than `outer` on any side? */
  predicate Contains(outer: Box, inner: Box)
  {
    && Le(outer.min.x, inner.min.x) && Le(outer.min.y, inner.min.y) && Le(outer.min.z, inner.min.z)
    && Le(inner.max.x, outer.max.x) && Le(inner.max.y, outer.max.y) && Le(inner.max.z, outer.max.z)
  }

  predicate Intersect(a: Box, b: Box)
  {
    && Le(a.min.x, b.max.x) && Le(b.min.x, a.max.x)
    && Le(a.min.y, b.max.y) && Le(b.min.y, a.max.y)
    && Le(a.min.z, b.max.z) && Le(b.min.z, a.max.z)
  }

  // ----- Intersecting -----

  /** A point that two intervals with points in them have in common, when neither ends before the other begins. */
  lemma CommonCoordinate(lo1: Coord, hi1: Coord, lo2: Coord, hi2: Coord, p1: real, p2: real) returns (p: real)
    requires Between(lo1, p1, hi1) && Between(lo2, p2, hi2)
    requires Le(lo1, hi2) && Le(lo2, hi1)
    ensures Between(lo1, p, hi1) && Between(lo2, p, hi2)
  {
    if Between(lo2, p1, hi2) {
      p := p1;
    } else if Between(lo1, p2, hi1) {
      p := p2;
    } else if Le(lo2, Fin(p1)) {
      p := hi2.r;
    } else {
      p := lo2.r;
    }
  }

  /** Boxes that have points in them intersect exactly when they have one in common. */
  lemma IntersectMeansCommonPoint(a: Box, b: Box, inA: Position, inB: Position)
    requires InBox(inA, a) && InBox(inB, b)
    ensures Intersect(a, b) <==> exists p :: InBox(p, a) && InBox(p, b)
  {
    if Intersect(a, b) {
      var x := CommonCoordinate(a.min.x, a.max.x, b.min.x, b.max.x, inA.x, inB.x);
      var y := CommonCoordinate(a.min.y, a.max.y, b.min.y, b.max.y, inA.y, inB.y);
      var z := CommonCoordinate(a.min.z, a.max.z, b.min.z, b.max.z, inA.z, inB.z);
      assert InBox(Vector(x, y, z), a) && InBox(Vector(x, y, z), b);
    }
  }

  /** A box that does not intersect the query spares everything inside it. */
  lemma PruningIsSound(outer: Box, inner: Box, query: Box)
    requires Contains(outer, inner) && Intersect(inner, query)
    ensures Intersect(outer, query)
  {
  }

  // ----- Growing -----

  function Grown(b: Box, p: Position): Box
  {
    Box(Vector(Least(b.min.x, Fin(p.x)), Least(b.min.y, Fin(p.y)), Least(b.min.z, Fin(p.z))),
        Vector(Greatest(b.max.x, Fin(p.x)), Greatest(b.max.y, Fin(p.y)), Greatest(b.max.z, Fin(p.z))))
  }

  function GrownBy(b: Box, points: seq<Position>): Box
  {
    if points == [] then b else Grown(GrownBy(b, points[..|points| - 1]), points[|points| - 1])
  }

  lemma GrownContains(b: Box, p: Position, c: Box)
    ensures Contains(c, Grown(b, p)) <==> Contains(c, b) && InBox(p, c)
  {
  }

  /** Growing the empty bounds gives the least box around the points: a box
      contains it exactly when all the points are in that box. */
  lemma {:induction false} GrownIsLeast(points: seq<Position>, c: Box)
    ensures Contains(c, GrownBy(EMPTY, points)) <==> forall p :: p in points ==> InBox(p, c)
  {
    if points == [] {
    } else {
      var before, last := points[..|points| - 1], points[|points| - 1];
      GrownIsLeast(before, c);
      assert points == before + [last];
      GrownContains(GrownBy(EMPTY, before), last, c);
    }
  }

  /** So it depends on which points there are, not on their order or number. */
  lemma GrowingIgnoresOrder(points: seq<Position>, others: seq<Position>)
    requires forall p :: p in points <==> p in others
    ensures GrownBy(EMPTY, points) == GrownBy(EMPTY, others)
  {
    var a, b := GrownBy(EMPTY, points), GrownBy(EMPTY, others);
    GrownIsLeast(points, a);
    GrownIsLeast(points, b);
    GrownIsLeast(others, a);
    GrownIsLeast(others, b);
    assert Contains(a, a) && Contains(b, b);
    assert Contains(a, b) && Contains(b, a);
  }

  class Bounds {
    var min: Vector<Coord>
    var max: Vector<Coord>

    function Value(): Box
      reads this
    {
      Box(min, max)
    }

    constructor ()
      ensures Value() == EMPTY
    {
      min, max := EMPTY.min, EMPTY.max;
    }

    method Grow(p: Position)
      modifies this
      ensures Value() == Grown(old(Value()), p)
      ensures forall c :: Contains(c, Value()) <==> Contains(c, old(Value())) && InBox(p, c)
    {
      min := Vector(Least(min.x, Fin(p.x)), Least(min.y, Fin(p.y)), Least(min.z, Fin(p.z)));
      max := Vector(Greatest(max.x, Fin(p.x)), Greatest(max.y, Fin(p.y)), Greatest(max.z, Fin(p.z)));
    }
  }

  /** Bounds grown by every point of a list. */
  method BoundsOf(points: seq<Position>) returns (box: Box)
    ensures forall c :: Contains(c, box) <==> forall p :: p in points ==> InBox(p, c)
  {
    var bounds := new Bounds();
    for i := 0 to |points|
      invariant forall c :: Contains(c, bounds.Value()) <==> forall p :: p in points[..i] ==> InBox(p, c)
    {
      assert points[..i + 1] == points[..i] + [points[i]];
      bounds.Grow(points[i]);
    }
    assert points[..|points|] == points;
    box := bounds.Value();
  }

  // ----- Boxes of octree keys -----

  /** The fields of the COPC info record that place the octree. */
  datatype CopcInfo = CopcInfo(center: Position, halfsize: real)

  /** `std::ldexp(1.0, l)`. */
  function PowerOfTwo(l: int): (p: real)
    ensures p > 0.0
    decreases if l < 0 then -l else l
  {
    if l == 0 then 1.0 else if l > 0 then 2.0 * PowerOfTwo(l - 1) else PowerOfTwo(l + 1) / 2.0
  }

  lemma PowerDoubles(l: int)
    ensures PowerOfTwo(l + 1) == 2.0 * PowerOfTwo(l)
  {
  }

  /** Edge length of the boxes of level `l`. */
  function Edge(center: real, half: real, l: int): (size: real)
  {
    ((center + half) - (center - half)) / PowerOfTwo(l)
  }

  /** Where the boxes with coordinate `i` begin in one axis. */
  function Begin(center: real, half: real, l: int, i: int): (lo: real)
  {
    center - half + Edge(center, half, l) * i as real
  }

  function KeyBounds(k: VoxelKey, info: CopcInfo): (b: Box)
  {
    var l := k.l as int;
    var min := Vector(Begin(info.center.x, info.halfsize, l, k.x as int),
                      Begin(info.center.y, info.halfsize, l, k.y as int),
                      Begin(info.center.z, info.halfsize, l, k.z as int));
    Finite(min, Vector(min.x + Edge(info.center.x, info.halfsize, l),
                       min.y + Edge(info.center.y, info.halfsize, l),
                       min.z + Edge(info.center.z, info.halfsize, l)))
  }

  /** Boxes are taken half-open, so that neighbours share no point. */
  predicate InHalfOpen(p: Position, b: Box)
  {
    InBox(p, b) && Fin(p.x) != b.max.x && Fin(p.y) != b.max.y && Fin(p.z) != b.max.z
  }

  /** The cube around the center. */
  function RootCube(info: CopcInfo): Box
  {
    Finite(Vector(info.center.x - info.halfsize, info.center.y - info.halfsize, info.center.z - info.halfsize),
           Vector(info.center.x + info.halfsize, info.center.y + info.halfsize, info.center.z + info.halfsize))
  }

  /** Is `p` in the interval with index `i` of level `l`? */
  predicate InInterval(center: real, half: real, l: int, i: int, p: real)
  {
    Begin(center, half, l, i) <= p < Begin(center, half, l, i) + Edge(center, half, l)
  }

  lemma KeyBoxByAxes(k: VoxelKey, info: CopcInfo, p: Position)
    ensures InHalfOpen(p, KeyBounds(k, info)) <==>
            && InInterval(info.center.x, info.halfsize, k.l as int, k.x as int, p.x)
            && InInterval(info.center.y, info.halfsize, k.l as int, k.y as int, p.y)
            && InInterval(info.center.z, info.halfsize, k.l as int, k.z as int, p.z)
  {
  }

  lemma {:induction false} PowersAgree(l: nat)
    ensures PowerOfTwo(l) == Pow2(l) as real
  {
    if l == 0 {
    } else {
      PowersAgree(l - 1);
    }
  }

  lemma ScaleLe(size: real, a: real, b: real)
    requires size > 0.0
    ensures size * a <= size * b <==> a <= b
  {
    if a < b {
      assert size * (b - a) > 0.0;
    } else {
      assert size * (a - b) >= 0.0;
    }
  }

  lemma QuotientTimes(a: real, b: real)
    requires b != 0.0
    ensures b * (a / b) == a
  {
  }

  /** Cell `i` of a grid with the given cell size: which cell a point is in. */
  lemma CellOf(lo: real, size: real, i: int, p: real)
    requires size > 0.0
    ensures lo + size * i as real <= p < lo + size * i as real + size <==> i == ((p - lo) / size).Floor
  {
    var a, u := i as real, (p - lo) / size;
    QuotientTimes(p - lo, size);
    ScaleLe(size, a, u);
    ScaleLe(size, a + 1.0, u);
    assert size * (a + 1.0) == size * a + size;
  }

  /** The first `n` cells of a grid cover exactly `n` cell sizes. */
  lemma FirstCells(lo: real, size: real, n: nat, p: real)
    requires size > 0.0
    ensures lo <= p < lo + size * n as real <==> 0 <= ((p - lo) / size).Floor < n
  {
    var m, u := n as real, (p - lo) / size;
    QuotientTimes(p - lo, size);
    ScaleLe(size, 0.0, u);
    ScaleLe(size, m, u);
  }

  lemma EdgesFillRoot(center: real, half: real, l: nat)
    ensures Edge(center, half, l) * Pow2(l) as real == (center + half) - (center - half)
  {
    PowersAgree(l);
    QuotientTimes((center + half) - (center - half), PowerOfTwo(l));
  }

  lemma EdgeSign(center: real, half: real, l: int)
    ensures Edge(center, half, l) > 0.0 <==> half > 0.0
    ensures Edge(center, half, l) >= 0.0 <==> half >= 0.0
  {
    var width, n := (center + half) - (center - half), PowerOfTwo(l);
    QuotientTimes(width, n);
    ScaleLe(n, 0.0, width / n);
    ScaleLe(n, width / n, 0.0);
  }

  /** At every level the intervals cover the root's, and no two share a point. */
  lemma IntervalsPartition(center: real, half: real, l: nat, p: real)
    ensures center - half <= p < center + half <==>
            exists i :: 0 <= i < Pow2(l) && InInterval(center, half, l, i, p)
    ensures forall i, j :: InInterval(center, half, l, i, p) && InInterval(center, half, l, j, p) ==> i == j
  {
    EdgeSign(center, half, l);
    if half > 0.0 {
      var lo, size := center - half, Edge(center, half, l);
      var cell := ((p - lo) / size).Floor;
      forall i: int
        ensures InInterval(center, half, l, i, p) <==> i == cell
      {
        CellOf(lo, size, i, p);
      }
      EdgesFillRoot(center, half, l);
      FirstCells(lo, size, Pow2(l), p);
      assert center - half <= p < center + half <==> 0 <= cell < Pow2(l);
      assert InInterval(center, half, l, cell, p);
    }
  }

  lemma KeyWith(info: CopcInfo, l: int32, p: Position) returns (k: VoxelKey)
    requires 0 <= l <= 31 && InHalfOpen(p, RootCube(info))
    ensures InTree(k) && k.l == l && InHalfOpen(p, KeyBounds(k, info))
  {
    var n := l as nat;
    IntervalsPartition(info.center.x, info.halfsize, n, p.x);
    IntervalsPartition(info.center.y, info.halfsize, n, p.y);
    IntervalsPartition(info.center.z, info.halfsize, n, p.z);
    var x :| 0 <= x < Pow2(n) && InInterval(info.center.x, info.halfsize, n, x, p.x);
    var y :| 0 <= y < Pow2(n) && InInterval(info.center.y, info.halfsize, n, y, p.y);
    var z :| 0 <= z < Pow2(n) && InInterval(info.center.z, info.halfsize, n, z, p.z);
    Pow2Of31();
    Pow2Grows(n, 31);
    k := VoxelKey(l, x as int32, y as int32, z as int32);
    KeyBoxByAxes(k, info, p);
  }

  lemma TreeBoxInsideRoot(k: VoxelKey, info: CopcInfo, p: Position)
    requires InTree(k) && InHalfOpen(p, KeyBounds(k, info))
    ensures InHalfOpen(p, RootCube(info))
  {
    KeyBoxByAxes(k, info, p);
    IntervalsPartition(info.center.x, info.halfsize, k.l as nat, p.x);
    IntervalsPartition(info.center.y, info.halfsize, k.l as nat, p.y);
    IntervalsPartition(info.center.z, info.halfsize, k.l as nat, p.z);
  }

  lemma LevelIsDisjoint(j: VoxelKey, k: VoxelKey, info: CopcInfo, p: Position)
    requires j.l == k.l >= 0
    requires InHalfOpen(p, KeyBounds(j, info)) && InHalfOpen(p, KeyBounds(k, info))
    ensures j == k
  {
    KeyBoxByAxes(j, info, p);
    KeyBoxByAxes(k, info, p);
    IntervalsPartition(info.center.x, info.halfsize, k.l as nat, p.x);
    IntervalsPartition(info.center.y, info.halfsize, k.l as nat, p.y);
    IntervalsPartition(info.center.z, info.halfsize, k.l as nat, p.z);
  }

  /** Taken half-open, the boxes of all keys of one level partition the root cube. */
  lemma LevelPartitionsRoot(info: CopcInfo, l: int32, p: Position)
    requires 0 <= l <= 31
    ensures InHalfOpen(p, RootCube(info)) <==>
            exists k :: InTree(k) && k.l == l && InHalfOpen(p, KeyBounds(k, info))
    ensures forall j: VoxelKey, k: VoxelKey ::
              (j.l == l && k.l == l && InHalfOpen(p, KeyBounds(j, info)) && InHalfOpen(p, KeyBounds(k, info))) ==> j == k
  {
    if InHalfOpen(p, RootCube(info)) {
      var k := KeyWith(info, l, p);
    }
    forall k | InTree(k) && k.l == l && InHalfOpen(p, KeyBounds(k, info))
      ensures InHalfOpen(p, RootCube(info))
    {
      TreeBoxInsideRoot(k, info, p);
    }
    forall j: VoxelKey, k: VoxelKey | j.l == l && k.l == l
      && InHalfOpen(p, KeyBounds(j, info)) && InHalfOpen(p, KeyBounds(k, info))
      ensures j == k
    {
      LevelIsDisjoint(j, k, info, p);
    }
  }

  lemma {:induction false} PowerBelowZero(l: int)
    requires l <= 0
    ensures PowerOfTwo(l) <= 1.0
    decreases -l
  {
    if l == 0 {
    } else {
      PowerBelowZero(l + 1);
    }
  }

  lemma QuotientGrows(a: real, n: real)
    requires a >= 0.0 && 0.0 < n <= 1.0
    ensures a / n >= a
  {
    assert (1.0 - n) * a >= 0.0;
    QuotientTimes(a, n);
    ScaleLe(n, a, a / n);
  }

  /** At a negative level the first interval holds the whole root interval. */
  lemma FirstCellHoldsRoot(center: real, half: real, l: int, p: real)
    requires l <= 0 && center - half <= p < center + half
    ensures InInterval(center, half, l, 0, p)
  {
    PowerBelowZero(l);
    QuotientGrows((center + half) - (center - half), PowerOfTwo(l));
    assert Begin(center, half, l, 0) == center - half;
  }

  /** Where an interval that no 32-bit coordinate names begins. */
  lemma BeyondKeys(center: real, half: real, l: nat) returns (p: real)
    requires l > 31 && half > 0.0
    ensures center - half <= p < center + half
    ensures forall i :: InInterval(center, half, l, i, p) ==> i >= 0x8000_0000
  {
    p := Begin(center, half, l, 0x8000_0000);
    EdgeSign(center, half, l);
    Pow2Of31();
    Pow2Grows(32, l);
    assert InInterval(center, half, l, 0x8000_0000, p);
    IntervalsPartition(center, half, l, p);
  }

  ghost predicate InLevel(p: Position, l: int32, info: CopcInfo)
  {
    exists k: VoxelKey :: k.l == l && InHalfOpen(p, KeyBounds(k, info))
  }

  lemma CoveredUpTo31(info: CopcInfo, l: int32, p: Position)
    requires l <= 31 && InHalfOpen(p, RootCube(info))
    ensures InLevel(p, l, info)
  {
    if l >= 0 {
      var k := KeyWith(info, l, p);
    } else {
      FirstCellHoldsRoot(info.center.x, info.halfsize, l as int, p.x);
      FirstCellHoldsRoot(info.center.y, info.halfsize, l as int, p.y);
      FirstCellHoldsRoot(info.center.z, info.halfsize, l as int, p.z);
      var k := VoxelKey(l, 0, 0, 0);
      KeyBoxByAxes(k, info, p);
    }
  }

  lemma NotCoveredBeyond31(info: CopcInfo, l: int32) returns (p: Position)
    requires l > 31 && info.halfsize > 0.0
    ensures InHalfOpen(p, RootCube(info)) && !InLevel(p, l, info)
  {
    var x := BeyondKeys(info.center.x, info.halfsize, l as nat);
    p := Vector(x, info.center.y, info.center.z);
    forall k: VoxelKey | k.l == l
      ensures !InHalfOpen(p, KeyBounds(k, info))
    {
      KeyBoxByAxes(k, info, p);
    }
  }

  /** Over all levels a key can have, its level's boxes cover the root cube up to level 31
      and not beyond, unless the cube is empty: the coordinates run out. */
  lemma LevelCoversRoot(info: CopcInfo, l: int32)
    ensures (forall p :: InHalfOpen(p, RootCube(info)) ==> InLevel(p, l, info)) <==> l <= 31 || info.halfsize <= 0.0
  {
    if l <= 31 {
      forall p | InHalfOpen(p, RootCube(info))
        ensures InLevel(p, l, info)
      {
        CoveredUpTo31(info, l, p);
      }
    } else if info.halfsize > 0.0 {
      var p := NotCoveredBeyond31(info, l);
    }
  }

  lemma HalfEdge(center: real, half: real, l: int)
    ensures Edge(center, half, l) == 2.0 * Edge(center, half, l + 1)
  {
    PowerDoubles(l);
    var width, n := (center + half) - (center - half), PowerOfTwo(l);
    assert width / n == 2.0 * (width / (2.0 * n));
  }

  lemma BeginBelow(center: real, half: real, l: int, i: int)
    ensures Begin(center, half, l + 1, 2 * i) == Begin(center, half, l, i)
    ensures Begin(center, half, l + 1, 2 * i + 1) == Begin(center, half, l, i) + Edge(center, half, l + 1)
  {
    HalfEdge(center, half, l);
    var e, a := Edge(center, half, l + 1), i as real;
    assert (2 * i) as real == 2.0 * a && (2 * i + 1) as real == 2.0 * a + 1.0;
    assert 2.0 * e * a == e * (2.0 * a);
    assert e * (2.0 * a + 1.0) == e * (2.0 * a) + e;
  }

  /** An interval is the union of the two intervals below it. */
  lemma IntervalSplits(center: real, half: real, l: int, i: int, p: real)
    ensures InInterval(center, half, l, i, p) <==>
            InInterval(center, half, l + 1, 2 * i, p) || InInterval(center, half, l + 1, 2 * i + 1, p)
    ensures !(InInterval(center, half, l + 1, 2 * i, p) && InInterval(center, half, l + 1, 2 * i + 1, p))
  {
    BeginBelow(center, half, l, i);
    HalfEdge(center, half, l);
    EdgeSign(center, half, l);
  }

  /** Which half of an interval: the index of the one below it that a point is in. */
  predicate InHalf(center: real, half: real, l: int, i: int, bit: int, p: real)
  {
    InInterval(center, half, l + 1, 2 * i + bit, p)
  }

  lemma ChildBoxByAxes(k: VoxelKey, d: Direction, info: CopcInfo, p: Position)
    requires HasExactChildren(k)
    ensures InHalfOpen(p, KeyBounds(Child(k, d).value, info)) <==>
            && InHalf(info.center.x, info.halfsize, k.l as int, k.x as int, (d % 2) as int, p.x)
            && InHalf(info.center.y, info.halfsize, k.l as int, k.y as int, (d / 2 % 2) as int, p.y)
            && InHalf(info.center.z, info.halfsize, k.l as int, k.z as int, (d / 4 % 2) as int, p.z)
  {
    KeyBoxByAxes(Child(k, d).value, info, p);
  }

  /** A point is in at most one child's box. */
  lemma ChildrenAreDisjoint(k: VoxelKey, d: Direction, e: Direction, info: CopcInfo, p: Position)
    requires HasExactChildren(k)
    requires InHalfOpen(p, KeyBounds(Child(k, d).value, info)) && InHalfOpen(p, KeyBounds(Child(k, e).value, info))
    ensures d == e
  {
    ChildBoxByAxes(k, d, info, p);
    ChildBoxByAxes(k, e, info, p);
    IntervalSplits(info.center.x, info.halfsize, k.l as int, k.x as int, p.x);
    IntervalSplits(info.center.y, info.halfsize, k.l as int, k.y as int, p.y);
    IntervalSplits(info.center.z, info.halfsize, k.l as int, k.z as int, p.z);
    SameBits(d, e);
  }

  lemma ChildBoxInside(k: VoxelKey, d: Direction, info: CopcInfo, p: Position)
    requires HasExactChildren(k) && InHalfOpen(p, KeyBounds(Child(k, d).value, info))
    ensures InHalfOpen(p, KeyBounds(k, info))
  {
    ChildBoxByAxes(k, d, info, p);
    KeyBoxByAxes(k, info, p);
    IntervalSplits(info.center.x, info.halfsize, k.l as int, k.x as int, p.x);
    IntervalSplits(info.center.y, info.halfsize, k.l as int, k.y as int, p.y);
    IntervalSplits(info.center.z, info.halfsize, k.l as int, k.z as int, p.z);
  }

  /** The half of an interval that a point of it is in. */
  function HalfOf(center: real, half: real, l: int, i: int, p: real): (bit: int)
    ensures bit == 0 || bit == 1
    ensures InInterval(center, half, l, i, p) ==> InHalf(center, half, l, i, bit, p)
  {
    IntervalSplits(center, half, l, i, p);
    if InHalf(center, half, l, i, 0, p) then 0 else 1
  }

  lemma ChildWith(k: VoxelKey, info: CopcInfo, p: Position) returns (d: Direction)
    requires HasExactChildren(k) && InHalfOpen(p, KeyBounds(k, info))
    ensures InHalfOpen(p, KeyBounds(Child(k, d).value, info))
  {
    KeyBoxByAxes(k, info, p);
    var a := HalfOf(info.center.x, info.halfsize, k.l as int, k.x as int, p.x);
    var b := HalfOf(info.center.y, info.halfsize, k.l as int, k.y as int, p.y);
    var c := HalfOf(info.center.z, info.halfsize, k.l as int, k.z as int, p.z);
    BitsOf(a, b, c);
    d := (a + 2 * b + 4 * c) as int32;
    assert (d % 2) as int == a && (d / 2 % 2) as int == b && (d / 4 % 2) as int == c;
    ChildBoxByAxes(k, d, info, p);
  }

  /** The eight children's boxes partition their parent's box. */
  lemma ChildrenPartitionParent(k: VoxelKey, info: CopcInfo, p: Position)
    requires HasExactChildren(k)
    ensures InHalfOpen(p, KeyBounds(k, info)) <==>
            exists d: Direction :: InHalfOpen(p, KeyBounds(Child(k, d).value, info))
    ensures forall d: Direction, e: Direction ::
              InHalfOpen(p, KeyBounds(Child(k, d).value, info)) && InHalfOpen(p, KeyBounds(Child(k, e).value, info)) ==> d == e
  {
    if InHalfOpen(p, KeyBounds(k, info)) {
      var d := ChildWith(k, info, p);
    }
    forall d: Direction | InHalfOpen(p, KeyBounds(Child(k, d).value, info))
      ensures InHalfOpen(p, KeyBounds(k, info))
    {
      ChildBoxInside(k, d, info, p);
    }
    forall d: Direction, e: Direction |
      InHalfOpen(p, KeyBounds(Child(k, d).value, info)) && InHalfOpen(p, KeyBounds(Child(k, e).value, info))
      ensures d == e
    {
      ChildrenAreDisjoint(k, d, e, info, p);
    }
  }

  lemma HalfInside(center: real, half: real, l: int, i: int, bit: int)
    requires bit == 0 || bit == 1
    ensures var (lo, lo') := (Begin(center, half, l, i), Begin(center, half, l + 1, 2 * i + bit));
            lo <= lo' && lo' + Edge(center, half, l + 1) <= lo + Edge(center, half, l) <==> half >= 0.0
  {
    BeginBelow(center, half, l, i);
    HalfEdge(center, half, l);
    EdgeSign(center, half, l);
  }

  /** A child's box lies inside its parent's, as long as the cube has no negative size. */
  lemma ChildInsideParent(k: VoxelKey, d: Direction, info: CopcInfo)
    requires HasExactChildren(k)
    ensures Contains(KeyBounds(k, info), KeyBounds(Child(k, d).value, info)) <==> info.halfsize >= 0.0
  {
    HalfInside(info.center.x, info.halfsize, k.l as int, k.x as int, (d % 2) as int);
    HalfInside(info.center.y, info.halfsize, k.l as int, k.y as int, (d / 2 % 2) as int);
    HalfInside(info.center.z, info.halfsize, k.l as int, k.z as int, (d / 4 % 2) as int);
  }

  /** Every descendant's box lies inside each of its ancestors' boxes. */
  lemma {:induction false} DescendantInsideAncestor(path: Path, j: nat, info: CopcInfo)
    requires j <= |path| && info.halfsize >= 0.0
    ensures Contains(KeyBounds(KeyOf(path[..j]), info), KeyBounds(KeyOf(path), info))
    decreases |path|
  {
    if j == |path| {
      assert path[..j] == path;
    } else {
      var shorter, d := path[..|path| - 1], path[|path| - 1];
      DescendantInsideAncestor(shorter, j, info);
      assert shorter[..j] == path[..j];
      TreeKeysHaveExactChildren(KeyOf(shorter));
      ChildInsideParent(KeyOf(shorter), d, info);
    }
  }

  /** If a key's box meets the query then so do the boxes of all its ancestors. */
  lemma AncestorsMeetQuery(k: VoxelKey, n: nat, info: CopcInfo, query: Box)
    requires InTree(k) && info.halfsize >= 0.0
    requires Intersect(KeyBounds(k, info), query)
    ensures Intersect(KeyBounds(Up(k, n), info), query)
  {
    var path := PathOf(k);
    PathLeadsToKey(k);
    UpShortensPath(path, n);
    var j := Max(|path| - n, 0);
    DescendantInsideAncestor(path, j, info);
    PruningIsSound(KeyBounds(KeyOf(path[..j]), info), KeyBounds(k, info), query);
  }
}
