/** `SpatialHash3DVector.h`: the 3D table with vector buckets, whose searches return
    the references themselves, flattened in scan order. */
module SpatialHash3DVector {
  import opened Basics
  import CellMap
  import Containers
  import G = SpatialHash3D

  /** `SpatialHashTable3DVector<DataType, RefType>`: the base table with
      `ContainerVector` buckets. */
  type Table<R> = G.Table3D<seq<R>>

  /** `GetVoxelData`: a copy of the voxel's bucket, empty when the voxel is absent.
      The source looks the voxel up with `GetCell`, which the 3D base table does not
      declare; its voxel lookup is `GetVoxel`, used here. */
  function GetVoxelData<R>(t: Table<R>, i: G.Index3D): (r: seq<R>)
    ensures i !in t.cells ==> r == []
    ensures i in t.cells ==> r == t.cells[i]
  {
    match G.GetVoxel(t, i)
    case None => []
    case Some(b) => b
  }

  /** The inherited `Add(point, ref)`: the reference is appended to the bucket of the
      point's voxel, and no other voxel changes. */
  function Add<R>(t: Table<R>, p: G.Point3, ref: R): (r: Table<R>)
    requires G.Quantizable3(t, p)
    ensures r.voxelSize == t.voxelSize && r.invVoxelSize == t.invVoxelSize
    ensures r.cells.Keys == t.cells.Keys + {G.GetVoxelIndex(t, p)}
    ensures GetVoxelData(r, G.GetVoxelIndex(t, p)) == GetVoxelData(t, G.GetVoxelIndex(t, p)) + [ref]
    ensures forall i :: i != G.GetVoxelIndex(t, p) ==> GetVoxelData(r, i) == GetVoxelData(t, i)
  {
    G.Add(t, p, [], b => Containers.VectorAdd(b, ref))
  }

  /** `CubeSearch(center, half_size)`: the references held by the populated voxels
      within Chebyshev distance `h` of `c`. */
  function CubeSearch<R(!new)>(t: Table<R>, c: G.Index3D, h: Int32): (r: seq<R>)
    requires G.CubeScanSafe(c, h)
    ensures forall x :: x in r <==> exists i :: i in t.cells && G.InCube(i, c, h) && x in t.cells[i]
  {
    var idxs := G.CubeSearch(t, c, h);
    CellMap.FlattenRegionAll(t.cells, idxs, i => G.InCube(i, c, h));
    CellMap.Concat(CellMap.Lookup(t.cells, idxs))
  }

  /** The cube search with the scan and flattening loops written out, as in the source. */
  method CubeSearchLoop<R(!new)>(t: Table<R>, c: G.Index3D, h: Int32) returns (r: seq<R>)
    requires G.CubeScanSafe(c, h)
    ensures r == CubeSearch(t, c, h)
  {
    var idxs := G.CubeSearchLoop(t, c, h);
    assert forall k :: 0 <= k < |idxs| ==> idxs[k] in idxs;
    r := CellMap.Flatten(t.cells, idxs);
  }

  /** The conversions of the real-space search are defined and the index search it
      delegates to is safe. */
  predicate RealCenterSafe<R>(t: Table<R>, c: G.Point3, half: real) {
    G.Quantizable3(t, c) && ExtentDefined(half, t.invVoxelSize) &&
    G.CubeScanSafe(G.GetVoxelIndex(t, c), HalfExtent(half, t.invVoxelSize))
  }

  /** `CubeSearch(center[3], half_size)` as written: the centre's voxel and the
      truncated half extent, then the index search. */
  function CubeSearchReal<R(!new)>(t: Table<R>, c: G.Point3, half: real): (r: seq<R>)
    requires RealCenterSafe(t, c, half)
    ensures forall x :: x in r <==>
      exists i :: i in t.cells && G.InCube(i, G.GetVoxelIndex(t, c), HalfExtent(half, t.invVoxelSize)) && x in t.cells[i]
  {
    CubeSearch(t, G.GetVoxelIndex(t, c), HalfExtent(half, t.invVoxelSize))
  }

  /** The point `p` lies within `half` of `c` on every axis. */
  predicate WithinReal(p: G.Point3, c: G.Point3, half: real) {
    -half <= p.x - c.x <= half && -half <= p.y - c.y <= half && -half <= p.z - c.z <= half
  }

  /** The covering search is defined: a positive inverse voxel size, a non-negative
      half size, an extent that fits `int32_t`, and a safe scan. */
  predicate CoveringSafe<R>(t: Table<R>, c: G.Point3, half: real) {
    G.Quantizable3(t, c) && 0.0 < t.invVoxelSize && 0.0 <= half && ExtentDefined(half, t.invVoxelSize) &&
    InInt32(CoveringExtent(half, t.invVoxelSize)) &&
    G.CubeScanSafe(G.GetVoxelIndex(t, c), CoveringExtent(half, t.invVoxelSize))
  }

  /** The real-space cube search with the extent widened by one voxel. */
  function CubeSearchRealCovering<R(!new)>(t: Table<R>, c: G.Point3, half: real): (r: seq<R>)
    requires CoveringSafe(t, c, half)
    ensures forall x :: x in r <==>
      exists i :: i in t.cells && G.InCube(i, G.GetVoxelIndex(t, c), CoveringExtent(half, t.invVoxelSize)) && x in t.cells[i]
  {
    CubeSearch(t, G.GetVoxelIndex(t, c), CoveringExtent(half, t.invVoxelSize))
  }

  /** Every point of a list of insertions quantises to an `int32_t` voxel. */
  predicate AllQuantizable<R>(t: Table<R>, items: seq<(G.Point3, R)>) {
    forall k :: 0 <= k < |items| ==> G.Quantizable3(t, items[k].0)
  }

  /** Inserting the `(point, ref)` pairs `items` in order. */
  function AddAll<R>(t: Table<R>, items: seq<(G.Point3, R)>): (r: Table<R>)
    requires AllQuantizable(t, items)
    ensures r.voxelSize == t.voxelSize && r.invVoxelSize == t.invVoxelSize
  {
    if items == [] then t
    else
      var n := |items| - 1;
      assert AllQuantizable(t, items[..n]) by {
        assert forall k :: 0 <= k < n ==> items[..n][k] == items[k];
      }
      Add(AddAll(t, items[..n]), items[n].0, items[n].1)
  }

  /** The insertions `items` as voxel entries: each point replaced by its voxel. */
  function Entries<R>(t: Table<R>, items: seq<(G.Point3, R)>): (es: seq<CellMap.Entry<G.Index3D, R>>)
    requires AllQuantizable(t, items)
    ensures |es| == |items|
    ensures forall k :: 0 <= k < |items| ==> es[k] == CellMap.Entry(G.GetVoxelIndex(t, items[k].0), items[k].1)
  {
    seq(|items|, k requires 0 <= k < |items| => CellMap.Entry(G.GetVoxelIndex(t, items[k].0), items[k].1))
  }

  /** Inserting `items` into a table with no voxels leaves exactly the voxels their
      points land in, each bucket listing that voxel's references in insertion order. */
  lemma {:induction false} AddAllHolds<R>(t: Table<R>, items: seq<(G.Point3, R)>)
    requires t.cells == map[]
    requires AllQuantizable(t, items)
    ensures CellMap.Holds(AddAll(t, items).cells, Entries(t, items))
  {
    if items == [] {
      CellMap.HoldsEmpty(t.cells);
    } else {
      var n := |items| - 1;
      var front := items[..n];
      assert forall k :: 0 <= k < n ==> front[k] == items[k];
      AddAllHolds(t, front);
      var before := AddAll(t, front);
      var after := AddAll(t, items);
      assert after == Add(before, items[n].0, items[n].1);
      var e := CellMap.Entry(G.GetVoxelIndex(t, items[n].0), items[n].1);
      EntriesSnoc(t, items);
      assert G.GetVoxelIndex(before, items[n].0) == e.index;
      CellMap.HoldsAfterAppend(before.cells, Entries(t, front), e, after.cells);
    }
  }

  /** The entries of a longer list extend those of its prefix by the last one. */
  lemma EntriesSnoc<R>(t: Table<R>, items: seq<(G.Point3, R)>)
    requires AllQuantizable(t, items)
    requires items != []
    ensures AllQuantizable(t, items[..|items| - 1])
    ensures Entries(t, items) ==
      Entries(t, items[..|items| - 1]) + [CellMap.Entry(G.GetVoxelIndex(t, items[|items| - 1].0), items[|items| - 1].1)]
  {
    var n := |items| - 1;
    assert forall k :: 0 <= k < n ==> items[..n][k] == items[k];
  }

  /** After inserting `items` into a table with no voxels, the data of any voxel is
      the list of references inserted at points of that voxel, in insertion order;
      in particular it is empty for a voxel no point landed in. */
  lemma GetVoxelDataHistory<R>(t: Table<R>, items: seq<(G.Point3, R)>, i: G.Index3D)
    requires t.cells == map[]
    requires AllQuantizable(t, items)
    ensures GetVoxelData(AddAll(t, items), i) == CellMap.RefsAt(Entries(t, items), i)
  {
    AddAllHolds(t, items);
  }

  /** The test's single-voxel case: one reference added to a fresh table with voxel
      size 10 at the origin is the only datum of the origin's voxel. */
  lemma SingleVoxelTest()
    ensures G.Quantizable3(G.NewTable<seq<int>>(10.0), G.Point3(0.0, 0.0, 0.0))
    ensures G.GetVoxelIndex(G.NewTable<seq<int>>(10.0), G.Point3(0.0, 0.0, 0.0)) == G.Origin
    ensures GetVoxelData(Add(G.NewTable<seq<int>>(10.0), G.Point3(0.0, 0.0, 0.0), 1), G.Origin) == [1]
  {
  }

  /** Coverage and soundness of the cube search, counted with multiplicity: after
      inserting `items` into a table with no voxels, the search returns precisely
      the references of the insertions whose voxel lies within distance `h` of `c`. */
  lemma CubeSearchExact<R(!new)>(t: Table<R>, items: seq<(G.Point3, R)>, c: G.Index3D, h: Int32)
    requires t.cells == map[]
    requires AllQuantizable(t, items)
    requires G.CubeScanSafe(c, h)
    ensures multiset(CubeSearch(AddAll(t, items), c, h)) == CellMap.RefsWhere(Entries(t, items), i => G.InCube(i, c, h))
  {
    var u := AddAll(t, items);
    AddAllHolds(t, items);
    var idxs := G.CubeSearch(u, c, h);
    G.OrderedDistinct(idxs);
    CellMap.CollectRegion(u.cells, Entries(t, items), idxs, i => G.InCube(i, c, h));
  }

  /** In plain terms: a reference is returned by the cube search exactly when it was
      inserted at a point whose voxel lies within distance `h` of `c`. */
  lemma CubeSearchSoundComplete<R(!new)>(t: Table<R>, items: seq<(G.Point3, R)>, c: G.Index3D, h: Int32, x: R)
    requires t.cells == map[]
    requires AllQuantizable(t, items)
    requires G.CubeScanSafe(c, h)
    ensures x in CubeSearch(AddAll(t, items), c, h) <==>
      exists k :: 0 <= k < |items| && G.InCube(G.GetVoxelIndex(t, items[k].0), c, h) && items[k].1 == x
  {
    CubeSearchExact(t, items, c, h);
    var es := Entries(t, items);
    CellMap.RefsWhereMembership(es, i => G.InCube(i, c, h), x);
    if exists k :: 0 <= k < |es| && G.InCube(es[k].index, c, h) && es[k].ref == x {
      var k :| 0 <= k < |es| && G.InCube(es[k].index, c, h) && es[k].ref == x;
      assert G.InCube(G.GetVoxelIndex(t, items[k].0), c, h) && items[k].1 == x;
    }
    if exists k :: 0 <= k < |items| && G.InCube(G.GetVoxelIndex(t, items[k].0), c, h) && items[k].1 == x {
      var k :| 0 <= k < |items| && G.InCube(G.GetVoxelIndex(t, items[k].0), c, h) && items[k].1 == x;
      assert G.InCube(es[k].index, c, h) && es[k].ref == x;
    }
  }

  /** Finding, as written: a point within `half` of the centre can be missed. With
      voxel size 1, centre (0.75, 0.75, 0.75) and half size 0.5, the point
      (1.25, 0.75, 0.75) is 0.5 from the centre, but the truncated extent is 0 and
      only the centre's voxel (0, 0, 0) is scanned, while the point lies in (1, 0, 0). */
  lemma RealCenterMissesNearPoint()
    ensures G.Quantizable3(G.NewTable<seq<int>>(1.0), G.Point3(1.25, 0.75, 0.75))
    ensures WithinReal(G.Point3(1.25, 0.75, 0.75), G.Point3(0.75, 0.75, 0.75), 0.5)
    ensures RealCenterSafe(Add(G.NewTable<seq<int>>(1.0), G.Point3(1.25, 0.75, 0.75), 7), G.Point3(0.75, 0.75, 0.75), 0.5)
    ensures CubeSearchReal(Add(G.NewTable<seq<int>>(1.0), G.Point3(1.25, 0.75, 0.75), 7), G.Point3(0.75, 0.75, 0.75), 0.5) == []
  {
    var t := Add(G.NewTable<seq<int>>(1.0), G.Point3(1.25, 0.75, 0.75), 7);
    assert t.cells.Keys == {G.Index3D(1, 0, 0)};
  }

  /** A point within `half` of the centre lies in a voxel within the covering extent
      of the centre's voxel. */
  lemma NearVoxelInCube<R>(t: Table<R>, p: G.Point3, c: G.Point3, half: real)
    requires G.Quantizable3(t, p) && G.Quantizable3(t, c)
    requires 0.0 < t.invVoxelSize && 0.0 <= half && ExtentDefined(half, t.invVoxelSize)
    requires WithinReal(p, c, half)
    ensures G.InCube(G.GetVoxelIndex(t, p), G.GetVoxelIndex(t, c), CoveringExtent(half, t.invVoxelSize))
  {
    QuantizeNearCovering(p.x, c.x, half, t.invVoxelSize);
    QuantizeNearCovering(p.y, c.y, half, t.invVoxelSize);
    QuantizeNearCovering(p.z, c.z, half, t.invVoxelSize);
  }

  /** Finding, corrected: with the extent widened by one voxel, every reference
      inserted at a point within `half` of the centre on every axis is returned. */
  lemma RealCenterCoveringFindsNear<R(!new)>(t: Table<R>, items: seq<(G.Point3, R)>, c: G.Point3, half: real, k: nat)
    requires t.cells == map[]
    requires AllQuantizable(t, items)
    requires CoveringSafe(t, c, half)
    requires k < |items| && WithinReal(items[k].0, c, half)
    ensures CoveringSafe(AddAll(t, items), c, half)
    ensures items[k].1 in CubeSearchRealCovering(AddAll(t, items), c, half)
  {
    var u := AddAll(t, items);
    var pi := G.GetVoxelIndex(t, items[k].0);
    NearVoxelInCube(t, items[k].0, c, half);
    AddAllHolds(t, items);
    CellMap.RefsAtContains(Entries(t, items), k);
    assert pi in u.cells && items[k].1 in u.cells[pi];
  }

  /** The corrected search does find the point the as-written search misses. */
  lemma RealCenterCoveringFixesExample()
    ensures CoveringSafe(G.NewTable<seq<int>>(1.0), G.Point3(0.75, 0.75, 0.75), 0.5)
    ensures 7 in CubeSearchRealCovering(Add(G.NewTable<seq<int>>(1.0), G.Point3(1.25, 0.75, 0.75), 7), G.Point3(0.75, 0.75, 0.75), 0.5)
  {
    var t := G.NewTable<seq<int>>(1.0);
    var items := [(G.Point3(1.25, 0.75, 0.75), 7)];
    assert AddAll(t, items) == Add(t, G.Point3(1.25, 0.75, 0.75), 7) by {
      assert items[..0] == [];
    }
    RealCenterCoveringFindsNear(t, items, G.Point3(0.75, 0.75, 0.75), 0.5, 0);
  }

  /** The squared Euclidean distance of `p` from the origin. */
  function SqNorm(p: G.Point3): real {
    p.x * p.x + p.y * p.y + p.z * p.z
  }

  /** A point cloud inserted with each point's position as its reference. */
  function Indexed(points: seq<G.Point3>): (items: seq<(G.Point3, int)>)
    ensures |items| == |points|
    ensures forall k :: 0 <= k < |points| ==> items[k] == (points[k], k)
  {
    seq(|points|, k requires 0 <= k < |points| => (points[k], k))
  }

  /** The exact radius test applied to the references a cube search returned: the
      references whose point lies strictly inside the squared radius, in order. */
  function RadiusFilter(points: seq<G.Point3>, r: seq<int>, radiusSq: real): seq<int>
    requires forall k :: 0 <= k < |r| ==> 0 <= r[k] < |points|
  {
    if r == [] then []
    else
      var n := |r| - 1;
      RadiusFilter(points, r[..n], radiusSq) + (if SqNorm(points[r[n]]) < radiusSq then [r[n]] else [])
  }

  /** The filter keeps every copy of a reference inside the radius and drops every
      copy of one outside it. */
  lemma {:induction false} RadiusFilterCount(points: seq<G.Point3>, r: seq<int>, radiusSq: real, x: int)
    requires forall k :: 0 <= k < |r| ==> 0 <= r[k] < |points|
    ensures multiset(RadiusFilter(points, r, radiusSq))[x] ==
      if 0 <= x < |points| && SqNorm(points[x]) < radiusSq then multiset(r)[x] else 0
  {
    if r != [] {
      var n := |r| - 1;
      assert r == r[..n] + [r[n]];
      RadiusFilterCount(points, r[..n], radiusSq, x);
    }
  }

  /** The references `0, 1, ..., n - 1`. */
  function Range(n: nat): (s: seq<int>)
    ensures |s| == n
    ensures forall k :: 0 <= k < n ==> s[k] == k
  {
    seq(n, k => k)
  }

  /** Each of `0, ..., n - 1` occurs once in `Range(n)`, and nothing else occurs. */
  lemma {:induction false} RangeCount(n: nat, x: int)
    ensures multiset(Range(n))[x] == if 0 <= x < n then 1 else 0
  {
    if n > 0 {
      assert Range(n) == Range(n - 1) + [n - 1];
      RangeCount(n - 1, x);
    }
  }

  /** With voxel size 0.1, a point inside the unit ball lies in a voxel within 15
      voxels of the origin on every axis. */
  lemma InnerVoxelInCube(p: G.Point3)
    requires SqNorm(p) < 1.0
    requires G.Quantizable3(G.NewTable<seq<int>>(0.1), p)
    ensures G.InCube(G.GetVoxelIndex(G.NewTable<seq<int>>(0.1), p), G.Origin, 15)
  {
    UnitBallAxis(p.x, p.y * p.y + p.z * p.z);
    UnitBallAxis(p.y, p.x * p.x + p.z * p.z);
    UnitBallAxis(p.z, p.x * p.x + p.y * p.y);
    QuantizeNearAligned(p.x, 0.0, 1.5, 10.0, 15);
    QuantizeNearAligned(p.y, 0.0, 1.5, 10.0, 15);
    QuantizeNearAligned(p.z, 0.0, 1.5, 10.0, 15);
  }

  /** A coordinate whose square, plus something non-negative, is below 1 lies in (-1, 1). */
  lemma UnitBallAxis(v: real, rest: real)
    requires 0.0 <= rest && v * v + rest < 1.0
    ensures -1.0 < v < 1.0
  {
    if 1.0 <= v {
      assert false;
    } else if v <= -1.0 {
      assert false;
    }
  }

  /** The cube search of half size 1.5 around the origin on the cloud inserted with
      voxel size 0.1: the truncated extent is exactly 15 voxels, and the references
      returned are those inserted within 15 voxels of the origin's voxel. */
  lemma RadiusCubeRefs(points: seq<G.Point3>)
    requires AllQuantizable(G.NewTable<seq<int>>(0.1), Indexed(points))
    ensures RealCenterSafe(AddAll(G.NewTable<seq<int>>(0.1), Indexed(points)), G.Point3(0.0, 0.0, 0.0), 1.5)
    ensures multiset(CubeSearchReal(AddAll(G.NewTable<seq<int>>(0.1), Indexed(points)), G.Point3(0.0, 0.0, 0.0), 1.5)) ==
      CellMap.RefsWhere(Entries(G.NewTable<seq<int>>(0.1), Indexed(points)), i => G.InCube(i, G.Origin, 15))
  {
    var t := G.NewTable<seq<int>>(0.1);
    var items := Indexed(points);
    var u := AddAll(t, items);
    var c := G.Point3(0.0, 0.0, 0.0);
    assert t.invVoxelSize == 10.0;
    assert HalfExtent(1.5, 10.0) == 15;
    assert G.GetVoxelIndex(u, c) == G.Origin;
    CubeSearchExact(t, items, G.Origin, 15);
  }

  /** One reference of the radius test: after the exact radius filter it occurs once
      when it numbers a point inside the unit ball, and not at all otherwise. */
  lemma RadiusCountAt(points: seq<G.Point3>, inner: nat, r: seq<int>, x: int)
    requires inner <= |points|
    requires forall k :: 0 <= k < inner ==> SqNorm(points[k]) < 1.0
    requires forall k :: inner <= k < |points| ==> 4.0 <= SqNorm(points[k])
    requires AllQuantizable(G.NewTable<seq<int>>(0.1), Indexed(points))
    requires multiset(r) == CellMap.RefsWhere(Entries(G.NewTable<seq<int>>(0.1), Indexed(points)), i => G.InCube(i, G.Origin, 15))
    requires forall k :: 0 <= k < |r| ==> 0 <= r[k] < |points|
    ensures multiset(RadiusFilter(points, r, 2.25))[x] == if 0 <= x < inner then 1 else 0
  {
    var es := Entries(G.NewTable<seq<int>>(0.1), Indexed(points));
    RadiusFilterCount(points, r, 2.25, x);
    CellMap.RefsWhereNumbered(es, i => G.InCube(i, G.Origin, 15), x);
    if 0 <= x < inner {
      InnerVoxelInCube(points[x]);
    }
  }

  /** The test's radius search: a cloud of points numbered from 0, the first `inner`
      inside the unit ball and the rest at distance 2 or more, inserted with voxel
      size 0.1; the cube search of half size 1.5 around the origin, followed by the
      exact test against radius 1.5, returns exactly `inner` references. */
  lemma RadiusSearchTest(points: seq<G.Point3>, inner: nat)
    requires inner <= |points|
    requires forall k :: 0 <= k < inner ==> SqNorm(points[k]) < 1.0
    requires forall k :: inner <= k < |points| ==> 4.0 <= SqNorm(points[k])
    requires AllQuantizable(G.NewTable<seq<int>>(0.1), Indexed(points))
    ensures RealCenterSafe(AddAll(G.NewTable<seq<int>>(0.1), Indexed(points)), G.Point3(0.0, 0.0, 0.0), 1.5)
    ensures forall k :: 0 <= k < |CubeSearchReal(AddAll(G.NewTable<seq<int>>(0.1), Indexed(points)), G.Point3(0.0, 0.0, 0.0), 1.5)| ==>
      0 <= CubeSearchReal(AddAll(G.NewTable<seq<int>>(0.1), Indexed(points)), G.Point3(0.0, 0.0, 0.0), 1.5)[k] < |points|
    ensures |RadiusFilter(points, CubeSearchReal(AddAll(G.NewTable<seq<int>>(0.1), Indexed(points)), G.Point3(0.0, 0.0, 0.0), 1.5), 2.25)| == inner
  {
    RadiusCubeRefs(points);
    var r := CubeSearchReal(AddAll(G.NewTable<seq<int>>(0.1), Indexed(points)), G.Point3(0.0, 0.0, 0.0), 1.5);
    RadiusRefsNumbered(points, r);
    forall x
      ensures multiset(RadiusFilter(points, r, 2.25))[x] == if 0 <= x < inner then 1 else 0
    {
      RadiusCountAt(points, inner, r, x);
    }
    CountOnce(RadiusFilter(points, r, 2.25), inner);
  }

  /** Every reference the radius test's cube search returns numbers a point of the cloud. */
  lemma RadiusRefsNumbered(points: seq<G.Point3>, r: seq<int>)
    requires AllQuantizable(G.NewTable<seq<int>>(0.1), Indexed(points))
    requires multiset(r) == CellMap.RefsWhere(Entries(G.NewTable<seq<int>>(0.1), Indexed(points)), i => G.InCube(i, G.Origin, 15))
    ensures forall k :: 0 <= k < |r| ==> 0 <= r[k] < |points|
  {
    var es := Entries(G.NewTable<seq<int>>(0.1), Indexed(points));
    forall k | 0 <= k < |r|
      ensures 0 <= r[k] < |points|
    {
      assert r[k] in multiset(r);
      CellMap.RefsWhereNumbered(es, i => G.InCube(i, G.Origin, 15), r[k]);
    }
  }

  /** A list in which each of `0, ..., n - 1` occurs once and nothing else occurs has
      length `n`. */
  lemma CountOnce(f: seq<int>, n: nat)
    requires forall x :: multiset(f)[x] == if 0 <= x < n then 1 else 0
    ensures |f| == n
  {
    forall x
      ensures multiset(f)[x] == multiset(Range(n))[x]
    {
      RangeCount(n, x);
    }
    assert multiset(f) == multiset(Range(n));
    assert |f| == |multiset(f)| == |multiset(Range(n))|;
  }
}
