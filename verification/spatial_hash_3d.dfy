/** `SpatialHash3D.h`: the 3D voxel index, its 64-bit hash, and the sparse table of
    buckets keyed by voxel index, with its cube scan. The table is generic in the
    bucket type `B`; a bucket's own `Add` is passed in as a function. */
module SpatialHash3D {
  import opened Basics
  import CellMap

  /** `HashIndex3D`: a voxel of the integer lattice. */
  datatype Index3D = Index3D(x: Int32, y: Int32, z: Int32)

  /** The default-constructed index. */
  const Origin: Index3D := Index3D(0, 0, 0)

  /** `operator==`: the negation of "some coordinate differs". */
  function Equal(a: Index3D, b: Index3D): (r: bool)
    ensures r <==> a == b
  {
    !(a.x != b.x || a.y != b.y || a.z != b.z)
  }

  /** All three coordinate sums fit `int32_t`, so `operator+` does not overflow. */
  predicate CanAdd(a: Index3D, b: Index3D) {
    InInt32(a.x + b.x) && InInt32(a.y + b.y) && InInt32(a.z + b.z)
  }

  /** `operator+`: component-wise addition. */
  function Plus(a: Index3D, b: Index3D): (r: Index3D)
    requires CanAdd(a, b)
    ensures r.x - a.x == b.x && r.y - a.y == b.y && r.z - a.z == b.z
  {
    Index3D(a.x + b.x, a.y + b.y, a.z + b.z)
  }

  /** Index addition is commutative and associative, with the default index as
      its neutral element. */
  lemma PlusLaws(a: Index3D, b: Index3D, c: Index3D)
    ensures Plus(a, Origin) == a
    ensures CanAdd(a, b) ==> Plus(a, b) == Plus(b, a)
    ensures CanAdd(a, b) && CanAdd(b, c) && CanAdd(Plus(a, b), c) && CanAdd(a, Plus(b, c)) ==>
      Plus(Plus(a, b), c) == Plus(a, Plus(b, c))
  {
  }

  /** `max_size` of `SpatalHash3D`: 2^20, the bias of each coordinate. */
  const HashBias: int := 0x10_0000

  /** The width of one coordinate's bit field: 2^21. */
  const FieldSize: int := 0x20_0000

  /** The documented voxel range `[-1048576 .. 1048575]` on every axis. */
  predicate InRange(i: Index3D) {
    -HashBias <= i.x < HashBias && -HashBias <= i.y < HashBias && -HashBias <= i.z < HashBias
  }

  /** `SpatalHash3D::operator()`: the three biased coordinates in consecutive 21-bit
      fields. The shifts are performed on a signed 64-bit value and each term and
      sum is a `uint64_t`; all of that is written out modulo 2^64. Within the
      documented range the fields do not overlap and the result stays below 2^63. */
  function Hash(i: Index3D): (h: nat)
    ensures h < TwoTo64
    ensures InRange(i) ==>
      h == (i.x + HashBias) + (i.y + HashBias) * FieldSize + (i.z + HashBias) * FieldSize * FieldSize
    ensures InRange(i) ==> h < TwoTo63
  {
    var a := Wrap64(i.x + HashBias);
    var b := Wrap64((i.y + HashBias) * FieldSize);
    var c := Wrap64((i.z + HashBias) * (FieldSize * FieldSize));
    Wrap64(Wrap64(a + b) + c)
  }

  /** The in-range voxel whose hash is `h`: the inverse of `Hash` on that range. */
  function Unhash(h: nat): (i: Index3D)
    requires h < TwoTo63
  {
    var q := h / FieldSize;
    Index3D(h % FieldSize - HashBias, q % FieldSize - HashBias, q / FieldSize - HashBias)
  }

  /** Splitting a number into a low field and the rest. */
  lemma FieldSplit(lo: int, hi: int)
    requires 0 <= lo < FieldSize
    ensures (lo + hi * FieldSize) % FieldSize == lo
    ensures (lo + hi * FieldSize) / FieldSize == hi
  {
  }

  /** Within the documented range, unhashing recovers the voxel; every value below
      2^63 is the hash of exactly one in-range voxel. */
  lemma HashRoundTrip(i: Index3D, h: nat)
    requires h < TwoTo63
    ensures InRange(i) ==> Unhash(Hash(i)) == i
    ensures InRange(Unhash(h)) && Hash(Unhash(h)) == h
  {
    if InRange(i) {
      var a, b, c := i.x + HashBias, i.y + HashBias, i.z + HashBias;
      assert Hash(i) == a + (b + c * FieldSize) * FieldSize;
      FieldSplit(a, b + c * FieldSize);
      FieldSplit(b, c);
    }
    var q := h / FieldSize;
    assert h == h % FieldSize + q * FieldSize;
    assert q == q % FieldSize + (q / FieldSize) * FieldSize;
    assert q / FieldSize < FieldSize;
  }

  /** Within the documented range distinct voxels never share a hash. */
  lemma HashInjective(a: Index3D, b: Index3D)
    requires InRange(a) && InRange(b)
    ensures Hash(a) == Hash(b) <==> a == b
  {
    if Hash(a) == Hash(b) {
      HashRoundTrip(a, 0);
      HashRoundTrip(b, 0);
    }
  }

  /** Outside the documented range the fields overlap: a voxel just past the upper
      bound of `x` hashes like a different voxel. The table still tells them apart,
      because `std::unordered_map` compares keys with `operator==`; only the
      bucket spread suffers. */
  lemma HashAliasesOutOfRange()
    ensures Hash(Index3D(HashBias, 0, 0)) == Hash(Index3D(-HashBias, 1, 0))
    ensures !Equal(Index3D(HashBias, 0, 0), Index3D(-HashBias, 1, 0))
  {
  }

  /** A point of continuous space. */
  datatype Point3 = Point3(x: real, y: real, z: real)

  /** `SpatialHashTable3D`: the voxel size, its inverse, and `table_`, the populated
      voxels with their buckets. */
  datatype Table3D<B> = Table3D(voxelSize: real, invVoxelSize: real, cells: map<Index3D, B>)

  /** The default constructor: both sizes zero and no voxels. */
  function DefaultTable<B>(): (t: Table3D<B>)
    ensures t.cells == map[]
    ensures t.voxelSize == 0.0 && t.invVoxelSize == 0.0
  {
    Table3D(0.0, 0.0, map[])
  }

  /** The constructor with a voxel size: the inverse is its reciprocal. */
  function NewTable<B>(voxelSize: real): (t: Table3D<B>)
    requires voxelSize != 0.0
    ensures t.cells == map[]
    ensures t.voxelSize == voxelSize && t.voxelSize * t.invVoxelSize == 1.0
  {
    Table3D(voxelSize, 1.0 / voxelSize, map[])
  }

  /** `Clear`: drops every voxel, keeps the sizes. */
  function Clear<B>(t: Table3D<B>): (r: Table3D<B>)
    ensures r.cells == map[]
    ensures r.voxelSize == t.voxelSize && r.invVoxelSize == t.invVoxelSize
  {
    t.(cells := map[])
  }

  /** `SetVoxelSize`: clears the table, then installs the new size and its reciprocal. */
  function SetVoxelSize<B>(t: Table3D<B>, voxelSize: real): (r: Table3D<B>)
    requires voxelSize != 0.0
    ensures r.cells == map[]
    ensures r.voxelSize == voxelSize && r.voxelSize * r.invVoxelSize == 1.0
  {
    var c := Clear(t);
    c.(voxelSize := voxelSize, invVoxelSize := 1.0 / voxelSize)
  }

  /** All three coordinates of `p` quantise to values that fit `int32_t`. */
  predicate Quantizable3<B>(t: Table3D<B>, p: Point3) {
    Quantizable(p.x, t.invVoxelSize) && Quantizable(p.y, t.invVoxelSize) && Quantizable(p.z, t.invVoxelSize)
  }

  /** `GetVoxelIndex`: the voxel whose scaled unit cube contains the scaled point. */
  function GetVoxelIndex<B>(t: Table3D<B>, p: Point3): (i: Index3D)
    requires Quantizable3(t, p)
    ensures i.x as real <= p.x * t.invVoxelSize < i.x as real + 1.0
    ensures i.y as real <= p.y * t.invVoxelSize < i.y as real + 1.0
    ensures i.z as real <= p.z * t.invVoxelSize < i.z as real + 1.0
  {
    Index3D(Quantize(p.x, t.invVoxelSize), Quantize(p.y, t.invVoxelSize), Quantize(p.z, t.invVoxelSize))
  }

  /** Quantisation is deterministic and, with a non-negative inverse voxel size,
      monotone on each axis: a point that is no further along any axis than
      another lands in a voxel that is no further along either. */
  lemma GetVoxelIndexMonotone<B>(t: Table3D<B>, p: Point3, q: Point3)
    requires Quantizable3(t, p) && Quantizable3(t, q)
    requires 0.0 <= t.invVoxelSize
    requires p.x <= q.x && p.y <= q.y && p.z <= q.z
    ensures GetVoxelIndex(t, p).x <= GetVoxelIndex(t, q).x
    ensures GetVoxelIndex(t, p).y <= GetVoxelIndex(t, q).y
    ensures GetVoxelIndex(t, p).z <= GetVoxelIndex(t, q).z
  {
    QuantizeMonotone(p.x, q.x, t.invVoxelSize);
    QuantizeMonotone(p.y, q.y, t.invVoxelSize);
    QuantizeMonotone(p.z, q.z, t.invVoxelSize);
  }

  /** `Add(point, ref)`: `table_[GetVoxelIndex(point)].Add(ref)`, with the bucket's
      `Add` given as `bucketAdd` and a default-constructed bucket as `empty`. Only the
      voxel of `p` changes; it is created when absent. */
  function Add<B>(t: Table3D<B>, p: Point3, empty: B, bucketAdd: B -> B): (r: Table3D<B>)
    requires Quantizable3(t, p)
    ensures r.voxelSize == t.voxelSize && r.invVoxelSize == t.invVoxelSize
    ensures r.cells.Keys == t.cells.Keys + {GetVoxelIndex(t, p)}
    ensures r.cells[GetVoxelIndex(t, p)] ==
      bucketAdd(if GetVoxelIndex(t, p) in t.cells then t.cells[GetVoxelIndex(t, p)] else empty)
    ensures forall i :: i in t.cells && i != GetVoxelIndex(t, p) ==> r.cells[i] == t.cells[i]
  {
    t.(cells := CellMap.Upsert(t.cells, GetVoxelIndex(t, p), empty, bucketAdd))
  }

  /** `GetVoxel`: the bucket of a populated voxel, nothing for any other voxel. */
  function GetVoxel<B>(t: Table3D<B>, i: Index3D): (r: Option<B>)
    ensures r.Some? <==> i in t.cells
    ensures r.Some? ==> r.value == t.cells[i]
  {
    if i in t.cells then Some(t.cells[i]) else None
  }

  /** The lifecycle seen through `GetVoxel`: after `Add` the point's voxel holds the
      updated bucket and every other voxel reads as before; after `Clear` and
      `SetVoxelSize` every voxel reads as absent. */
  lemma GetVoxelLifecycle<B>(t: Table3D<B>, p: Point3, empty: B, bucketAdd: B -> B, i: Index3D, voxelSize: real)
    requires Quantizable3(t, p)
    requires voxelSize != 0.0
    ensures GetVoxel(Add(t, p, empty, bucketAdd), GetVoxelIndex(t, p)) ==
      Some(bucketAdd(match GetVoxel(t, GetVoxelIndex(t, p)) case Some(b) => b case None => empty))
    ensures i != GetVoxelIndex(t, p) ==> GetVoxel(Add(t, p, empty, bucketAdd), i) == GetVoxel(t, i)
    ensures GetVoxel(Clear(t), i) == None
    ensures GetVoxel(SetVoxelSize(t, voxelSize), i) == None
  {
  }

  /** The order in which the cube scan visits voxels: by `x`, then `y`, then `z`. */
  predicate Before(a: Index3D, b: Index3D) {
    a.x < b.x || (a.x == b.x && (a.y < b.y || (a.y == b.y && a.z < b.z)))
  }

  predicate StrictlyOrdered(s: seq<Index3D>) {
    forall j, k :: 0 <= j < k < |s| ==> Before(s[j], s[k])
  }

  /** A scan in visiting order lists no voxel twice. */
  lemma OrderedDistinct(s: seq<Index3D>)
    requires StrictlyOrdered(s)
    ensures CellMap.Distinct(s)
  {
  }

  /** The populated voxels `(x, y, z)` with `zLo <= z <= zHi`, by increasing `z`:
      one run of the innermost scan loop. */
  function Line<B>(cells: map<Index3D, B>, x: Int32, y: Int32, zLo: int, zHi: int): seq<Index3D>
    requires MinInt32 <= zLo && zHi <= MaxInt32
    decreases zHi - zLo
  {
    if zHi < zLo then []
    else
      var here := Index3D(x, y, zHi);
      Line(cells, x, y, zLo, zHi - 1) + (if here in cells then [here] else [])
  }

  /** A line lists exactly its populated voxels, by increasing `z`. */
  lemma {:induction false} LineSpec<B>(cells: map<Index3D, B>, x: Int32, y: Int32, zLo: int, zHi: int)
    requires MinInt32 <= zLo && zHi <= MaxInt32
    ensures forall i :: i in Line(cells, x, y, zLo, zHi) <==> i in cells && i.x == x && i.y == y && zLo <= i.z <= zHi
    ensures forall j, k :: 0 <= j < k < |Line(cells, x, y, zLo, zHi)| ==>
      Line(cells, x, y, zLo, zHi)[j].z < Line(cells, x, y, zLo, zHi)[k].z
    decreases zHi - zLo
  {
    if zLo <= zHi {
      LineSpec(cells, x, y, zLo, zHi - 1);
    }
  }

  /** The populated voxels of the slab `x` with `y` in `[yLo, yHi]` and `z` in
      `[zLo, zHi]`, by `y` then `z`: one run of the middle scan loop. */
  function Plane<B>(cells: map<Index3D, B>, x: Int32, yLo: int, yHi: int, zLo: int, zHi: int): seq<Index3D>
    requires MinInt32 <= yLo && yHi <= MaxInt32
    requires MinInt32 <= zLo && zHi <= MaxInt32
    decreases yHi - yLo
  {
    if yHi < yLo then []
    else Plane(cells, x, yLo, yHi - 1, zLo, zHi) + Line(cells, x, yHi, zLo, zHi)
  }

  /** A slab lists exactly its populated voxels, each once, in visiting order. */
  lemma {:induction false} PlaneSpec<B>(cells: map<Index3D, B>, x: Int32, yLo: int, yHi: int, zLo: int, zHi: int)
    requires MinInt32 <= yLo && yHi <= MaxInt32
    requires MinInt32 <= zLo && zHi <= MaxInt32
    ensures forall i :: i in Plane(cells, x, yLo, yHi, zLo, zHi) <==>
      i in cells && i.x == x && yLo <= i.y <= yHi && zLo <= i.z <= zHi
    ensures StrictlyOrdered(Plane(cells, x, yLo, yHi, zLo, zHi))
    decreases yHi - yLo
  {
    if yLo <= yHi {
      var front := Plane(cells, x, yLo, yHi - 1, zLo, zHi);
      var line := Line(cells, x, yHi, zLo, zHi);
      PlaneSpec(cells, x, yLo, yHi - 1, zLo, zHi);
      LineSpec(cells, x, yHi, zLo, zHi);
      forall j, k | 0 <= j < |front| && 0 <= k < |line|
        ensures front[j].y < line[k].y
      {
        assert front[j] in front;
        assert line[k] in line;
      }
    }
  }

  /** The populated voxels of the inclusive box `[xLo, xHi] x [yLo, yHi] x [zLo, zHi]`,
      in visiting order: the three nested scan loops. */
  function Cube<B>(cells: map<Index3D, B>, xLo: int, xHi: int, yLo: int, yHi: int, zLo: int, zHi: int): seq<Index3D>
    requires MinInt32 <= xLo && xHi <= MaxInt32
    requires MinInt32 <= yLo && yHi <= MaxInt32
    requires MinInt32 <= zLo && zHi <= MaxInt32
    decreases xHi - xLo
  {
    if xHi < xLo then []
    else Cube(cells, xLo, xHi - 1, yLo, yHi, zLo, zHi) + Plane(cells, xHi, yLo, yHi, zLo, zHi)
  }

  /** A box lists exactly its populated voxels, each once, in visiting order. */
  lemma {:induction false} CubeSpec<B>(cells: map<Index3D, B>, xLo: int, xHi: int, yLo: int, yHi: int, zLo: int, zHi: int)
    requires MinInt32 <= xLo && xHi <= MaxInt32
    requires MinInt32 <= yLo && yHi <= MaxInt32
    requires MinInt32 <= zLo && zHi <= MaxInt32
    ensures forall i :: i in Cube(cells, xLo, xHi, yLo, yHi, zLo, zHi) <==>
      i in cells && xLo <= i.x <= xHi && yLo <= i.y <= yHi && zLo <= i.z <= zHi
    ensures StrictlyOrdered(Cube(cells, xLo, xHi, yLo, yHi, zLo, zHi))
    decreases xHi - xLo
  {
    if xLo <= xHi {
      var front := Cube(cells, xLo, xHi - 1, yLo, yHi, zLo, zHi);
      var plane := Plane(cells, xHi, yLo, yHi, zLo, zHi);
      CubeSpec(cells, xLo, xHi - 1, yLo, yHi, zLo, zHi);
      PlaneSpec(cells, xHi, yLo, yHi, zLo, zHi);
      forall j, k | 0 <= j < |front| && 0 <= k < |plane|
        ensures front[j].x < plane[k].x
      {
        assert front[j] in front;
        assert plane[k] in plane;
      }
    }
  }

  /** One more step of the innermost loop extends the line by the voxel it visits. */
  lemma LineNext<B>(cells: map<Index3D, B>, x: Int32, y: Int32, zLo: int, z: Int32)
    requires MinInt32 <= zLo <= z
    ensures Line(cells, x, y, zLo, z) ==
      Line(cells, x, y, zLo, z - 1) + (if Index3D(x, y, z) in cells then [Index3D(x, y, z)] else [])
  {
  }

  /** One more run of the middle loop extends the slab by one line. */
  lemma PlaneNext<B>(cells: map<Index3D, B>, x: Int32, yLo: int, y: Int32, zLo: int, zHi: int)
    requires MinInt32 <= yLo <= y
    requires MinInt32 <= zLo && zHi <= MaxInt32
    ensures Plane(cells, x, yLo, y, zLo, zHi) == Plane(cells, x, yLo, y - 1, zLo, zHi) + Line(cells, x, y, zLo, zHi)
  {
  }

  /** One more run of the outer loop extends the box by one slab. */
  lemma CubeNext<B>(cells: map<Index3D, B>, xLo: int, x: Int32, yLo: int, yHi: int, zLo: int, zHi: int)
    requires MinInt32 <= xLo <= x
    requires MinInt32 <= yLo && yHi <= MaxInt32
    requires MinInt32 <= zLo && zHi <= MaxInt32
    ensures Cube(cells, xLo, x, yLo, yHi, zLo, zHi) ==
      Cube(cells, xLo, x - 1, yLo, yHi, zLo, zHi) + Plane(cells, x, yLo, yHi, zLo, zHi)
  {
  }

  /** The voxel `i` lies within Chebyshev distance `h` of `c`. */
  predicate InCube(i: Index3D, c: Index3D, h: int) {
    Abs(i.x - c.x) <= h && Abs(i.y - c.y) <= h && Abs(i.z - c.z) <= h
  }

  /** The Chebyshev ball as the inclusive box the scan loops walk. */
  lemma InCubeAsBox(c: Index3D, h: int)
    ensures forall i :: InCube(i, c, h) <==>
      c.x - h <= i.x <= c.x + h && c.y - h <= i.y <= c.y + h && c.z - h <= i.z <= c.z + h
  {
  }

  /** The `int32_t` arithmetic of the cube scan stays in range and its loops end:
      both `x` bounds fit, and when the loops run the `y` and `z` bounds fit too and
      no upper bound is `INT32_MAX` (where `++` would overflow before the test fails). */
  predicate CubeScanSafe(c: Index3D, h: int) {
    InInt32(c.x - h) && InInt32(c.x + h) &&
    (0 <= h ==>
      c.x + h < MaxInt32 &&
      MinInt32 <= c.y - h && c.y + h < MaxInt32 &&
      MinInt32 <= c.z - h && c.z + h < MaxInt32)
  }

  /** `CubeSearch(center, half_size)` of the base table: the populated voxels within
      Chebyshev distance `h` of `c`, each once, by `x`, then `y`, then `z`. Voxels are
      reported by index; the bucket of each is `t.cells[i]`. */
  function CubeSearch<B>(t: Table3D<B>, c: Index3D, h: Int32): (r: seq<Index3D>)
    requires CubeScanSafe(c, h)
    ensures forall i :: i in r <==> i in t.cells && InCube(i, c, h)
    ensures StrictlyOrdered(r)
  {
    var xLo, xHi, yLo, yHi, zLo, zHi := c.x - h, c.x + h, c.y - h, c.y + h, c.z - h, c.z + h;
    CubeSpec(t.cells, xLo, xHi, yLo, yHi, zLo, zHi);
    InCubeAsBox(c, h);
    Cube(t.cells, xLo, xHi, yLo, yHi, zLo, zHi)
  }

  /** A negative half size finds nothing; half size 0 finds at most the centre. */
  lemma CubeSearchDegenerate<B>(t: Table3D<B>, c: Index3D, h: Int32)
    requires CubeScanSafe(c, h)
    ensures h < 0 ==> CubeSearch(t, c, h) == []
    ensures h == 0 ==> CubeSearch(t, c, h) == (if c in t.cells then [c] else [])
  {
    var r := CubeSearch(t, c, h);
    if h == 0 {
      assert forall i :: i in r ==> i == c;
      OrderedDistinct(r);
      assert |r| <= 1 by {
        if 1 < |r| {
          assert r[0] in r;
          assert r[1] in r;
        }
      }
      if c in t.cells {
        assert c in r;
      }
      assert |r| == 0 || r[0] in r;
    }
  }

  /** The innermost scan loop: one line, by increasing `z`. */
  method LineLoop<B>(t: Table3D<B>, x: Int32, y: Int32, zLo: Int32, zHi: Int32) returns (r: seq<Index3D>)
    requires zHi < MaxInt32
    ensures r == Line(t.cells, x, y, zLo, zHi)
  {
    r := [];
    var z: Int32 := zLo;
    while z <= zHi
      invariant zLo <= z && (z <= zHi + 1 || z == zLo)
      invariant r == Line(t.cells, x, y, zLo, z - 1)
      decreases zHi - z
    {
      LineNext(t.cells, x, y, zLo, z);
      var p := Index3D(x, y, z);
      if p in t.cells {
        r := r + [p];
      }
      z := z + 1;
    }
  }

  /** The middle scan loop: one slab, by increasing `y`, the inner loop being `LineLoop`. */
  method PlaneLoop<B>(t: Table3D<B>, x: Int32, yLo: Int32, yHi: Int32, zLo: Int32, zHi: Int32) returns (r: seq<Index3D>)
    requires yHi < MaxInt32 && zHi < MaxInt32
    ensures r == Plane(t.cells, x, yLo, yHi, zLo, zHi)
  {
    r := [];
    var y: Int32 := yLo;
    while y <= yHi
      invariant yLo <= y && (y <= yHi + 1 || y == yLo)
      invariant r == Plane(t.cells, x, yLo, y - 1, zLo, zHi)
      decreases yHi - y
    {
      var line := LineLoop(t, x, y, zLo, zHi);
      PlaneNext(t.cells, x, yLo, y, zLo, zHi);
      r := r + line;
      y := y + 1;
    }
  }

  /** The cube scan as the source writes it: three nested counting loops over
      `int32_t`, pushing each populated voxel found. */
  method CubeSearchLoop<B>(t: Table3D<B>, c: Index3D, h: Int32) returns (r: seq<Index3D>)
    requires CubeScanSafe(c, h)
    ensures r == CubeSearch(t, c, h)
  {
    r := [];
    var xLo: Int32, xHi: Int32 := c.x - h, c.x + h;
    var yLo, yHi, zLo, zHi := c.y - h, c.y + h, c.z - h, c.z + h;
    assert MinInt32 <= yLo && yHi <= MaxInt32 && MinInt32 <= zLo && zHi <= MaxInt32;
    var x: Int32 := xLo;
    while x <= xHi
      invariant xLo <= x && (x <= xHi + 1 || x == xLo)
      invariant r == Cube(t.cells, xLo, x - 1, yLo, yHi, zLo, zHi)
      decreases xHi - x
    {
      assert 0 <= h;
      var plane := PlaneLoop(t, x, yLo, yHi, zLo, zHi);
      CubeNext(t.cells, xLo, x, yLo, yHi, zLo, zHi);
      r := r + plane;
      x := x + 1;
    }
  }
}
