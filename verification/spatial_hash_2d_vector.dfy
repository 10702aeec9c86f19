/** `SpatialHash2DVector.h`: the 2D table with vector buckets, whose searches return
    the references themselves, flattened in scan order. */
module SpatialHash2DVector {
  import opened Basics
  import CellMap
  import Containers
  import G = SpatialHash2D

  /** `SpatialHashTable2DVector<DataType, RefType>`: the base table with
      `ContainerVector` buckets. */
  type Table<R> = G.Table2D<seq<R>>

  /** `GetCellData`: a copy of the cell's bucket, empty when the cell is absent. */
  function GetCellData<R>(t: Table<R>, i: G.Index2D): (r: seq<R>)
    ensures i !in t.cells ==> r == []
    ensures i in t.cells ==> r == t.cells[i]
  {
    match G.GetCell(t, i)
    case None => []
    case Some(b) => b
  }

  /** The inherited `Add(point, ref)`: the reference is appended to the bucket of the
      point's cell, and no other cell changes. */
  function Add<R>(t: Table<R>, p: G.Point2, ref: R): (r: Table<R>)
    requires G.Quantizable2(t, p)
    ensures r.cellSize == t.cellSize && r.invCellSize == t.invCellSize
    ensures r.cells.Keys == t.cells.Keys + {G.GetCellIndex(t, p)}
    ensures GetCellData(r, G.GetCellIndex(t, p)) == GetCellData(t, G.GetCellIndex(t, p)) + [ref]
    ensures forall i :: i != G.GetCellIndex(t, p) ==> GetCellData(r, i) == GetCellData(t, i)
  {
    G.Add(t, p, [], b => Containers.VectorAdd(b, ref))
  }

  /** `SquareSearch(center_cell, half_size)`: the references held by the populated
      cells within Chebyshev distance `h` of `c`. */
  function SquareSearch<R(!new)>(t: Table<R>, c: G.Index2D, h: Int32): (r: seq<R>)
    requires G.CenterScanSafe(c, h)
    ensures forall x :: x in r <==> exists i :: i in t.cells && G.InSquare(i, c, h) && x in t.cells[i]
  {
    var idxs := G.SquareSearch(t, c, h);
    CellMap.FlattenRegionAll(t.cells, idxs, i => G.InSquare(i, c, h));
    CellMap.Concat(CellMap.Lookup(t.cells, idxs))
  }

  /** The cells whose coordinates lie between those of `a` and `b` on both axes. */
  predicate InCorners(i: G.Index2D, a: G.Index2D, b: G.Index2D) {
    Between(i.x, a.x, b.x) && Between(i.y, a.y, b.y)
  }

  /** `SquareSearch(left_top, right_bottom)`: the references held by the populated
      cells of the box spanned by the two corners, given in any order. */
  function SquareSearchCorners<R(!new)>(t: Table<R>, a: G.Index2D, b: G.Index2D): (r: seq<R>)
    requires G.CornerScanSafe(a, b)
    ensures forall x :: x in r <==> exists i :: i in t.cells && InCorners(i, a, b) && x in t.cells[i]
  {
    var idxs := G.CornerSearch(t, a, b);
    CellMap.FlattenRegionAll(t.cells, idxs, i => InCorners(i, a, b));
    CellMap.Concat(CellMap.Lookup(t.cells, idxs))
  }

  /** The flattening loop of both index searches returns the buckets of the cells
      found, end to end, in scan order. */
  method SquareSearchCornersLoop<R(!new)>(t: Table<R>, a: G.Index2D, b: G.Index2D) returns (r: seq<R>)
    requires G.CornerScanSafe(a, b)
    ensures r == SquareSearchCorners(t, a, b)
  {
    var idxs := G.CornerSearchLoop(t, a, b);
    assert forall k :: 0 <= k < |idxs| ==> idxs[k] in idxs;
    r := CellMap.Flatten(t.cells, idxs);
  }

  /** The centre search with the flattening loop written out, as in the source. */
  method SquareSearchLoop<R(!new)>(t: Table<R>, c: G.Index2D, h: Int32) returns (r: seq<R>)
    requires G.CenterScanSafe(c, h)
    ensures r == SquareSearch(t, c, h)
  {
    var idxs := G.SquareSearchLoop(t, c, h);
    assert forall k :: 0 <= k < |idxs| ==> idxs[k] in idxs;
    r := CellMap.Flatten(t.cells, idxs);
  }

  /** The scan bounds of the real-space corner search fit and its loops end. */
  predicate RealCornersSafe<R>(t: Table<R>, p: G.Point2, q: G.Point2) {
    G.Quantizable2(t, p) && G.Quantizable2(t, q) &&
    G.CornerScanSafe(G.GetCellIndex(t, p), G.GetCellIndex(t, q))
  }

  /** `SquareSearch(left_top[2], right_bottom[2])`: both corners quantised with the
      `GetCellIndex` that `Add` uses, then the index corner search. */
  function SquareSearchRealCorners<R(!new)>(t: Table<R>, p: G.Point2, q: G.Point2): (r: seq<R>)
    requires RealCornersSafe(t, p, q)
    ensures forall x :: x in r <==>
      exists i :: i in t.cells && InCorners(i, G.GetCellIndex(t, p), G.GetCellIndex(t, q)) && x in t.cells[i]
  {
    SquareSearchCorners(t, G.GetCellIndex(t, p), G.GetCellIndex(t, q))
  }

  /** The conversions of the real-space centre search are defined and the index
      search it delegates to is safe. */
  predicate RealCenterSafe<R>(t: Table<R>, c: G.Point2, half: real) {
    G.Quantizable2(t, c) && ExtentDefined(half, t.invCellSize) &&
    G.CenterScanSafe(G.GetCellIndex(t, c), HalfExtent(half, t.invCellSize))
  }

  /** `SquareSearch(center[2], half_size)` as written: the centre's cell and the
      truncated half extent, then the index centre search. */
  function SquareSearchRealCenter<R(!new)>(t: Table<R>, c: G.Point2, half: real): (r: seq<R>)
    requires RealCenterSafe(t, c, half)
    ensures forall x :: x in r <==>
      exists i :: i in t.cells && G.InSquare(i, G.GetCellIndex(t, c), HalfExtent(half, t.invCellSize)) && x in t.cells[i]
  {
    SquareSearch(t, G.GetCellIndex(t, c), HalfExtent(half, t.invCellSize))
  }

  /** The point `p` lies within `half` of `c` on both axes. */
  predicate WithinReal(p: G.Point2, c: G.Point2, half: real) {
    -half <= p.x - c.x <= half && -half <= p.y - c.y <= half
  }

  /** The covering centre search is defined: a positive inverse cell size, a
      non-negative half size, an extent that fits `int32_t`, and a safe scan. */
  predicate CoveringSafe<R>(t: Table<R>, c: G.Point2, half: real) {
    G.Quantizable2(t, c) && 0.0 < t.invCellSize && 0.0 <= half && ExtentDefined(half, t.invCellSize) &&
    InInt32(CoveringExtent(half, t.invCellSize)) &&
    G.CenterScanSafe(G.GetCellIndex(t, c), CoveringExtent(half, t.invCellSize))
  }

  /** The real-space centre search with the extent widened by one cell. */
  function SquareSearchRealCenterCovering<R(!new)>(t: Table<R>, c: G.Point2, half: real): (r: seq<R>)
    requires CoveringSafe(t, c, half)
    ensures forall x :: x in r <==>
      exists i :: i in t.cells && G.InSquare(i, G.GetCellIndex(t, c), CoveringExtent(half, t.invCellSize)) && x in t.cells[i]
  {
    SquareSearch(t, G.GetCellIndex(t, c), CoveringExtent(half, t.invCellSize))
  }

  /** Every point of a list of insertions quantises to an `int32_t` cell. */
  predicate AllQuantizable<R>(t: Table<R>, items: seq<(G.Point2, R)>) {
    forall k :: 0 <= k < |items| ==> G.Quantizable2(t, items[k].0)
  }

  /** Inserting the `(point, ref)` pairs `items` in order. */
  function AddAll<R>(t: Table<R>, items: seq<(G.Point2, R)>): (r: Table<R>)
    requires AllQuantizable(t, items)
    ensures r.cellSize == t.cellSize && r.invCellSize == t.invCellSize
  {
    if items == [] then t
    else
      var n := |items| - 1;
      assert AllQuantizable(t, items[..n]) by {
        assert forall k :: 0 <= k < n ==> items[..n][k] == items[k];
      }
      Add(AddAll(t, items[..n]), items[n].0, items[n].1)
  }

  /** The insertions `items` as cell entries: each point replaced by its cell. */
  function Entries<R>(t: Table<R>, items: seq<(G.Point2, R)>): (es: seq<CellMap.Entry<G.Index2D, R>>)
    requires AllQuantizable(t, items)
    ensures |es| == |items|
    ensures forall k :: 0 <= k < |items| ==> es[k] == CellMap.Entry(G.GetCellIndex(t, items[k].0), items[k].1)
  {
    seq(|items|, k requires 0 <= k < |items| => CellMap.Entry(G.GetCellIndex(t, items[k].0), items[k].1))
  }

  /** The references of `items`, in insertion order. */
  function Refs<R>(items: seq<(G.Point2, R)>): (r: seq<R>)
    ensures |r| == |items|
    ensures forall k :: 0 <= k < |items| ==> r[k] == items[k].1
  {
    seq(|items|, k requires 0 <= k < |items| => items[k].1)
  }

  /** Inserting `items` into a table with no cells leaves exactly the cells their
      points land in, each bucket listing that cell's references in insertion order. */
  lemma {:induction false} AddAllHolds<R>(t: Table<R>, items: seq<(G.Point2, R)>)
    requires t.cells == map[]
    requires AllQuantizable(t, items)
    ensures CellMap.Holds(AddAll(t, items).cells, Entries(t, items))
  {
    if items == [] {
      CellMap.HoldsEmpty(t.cells);
    } else {
      var n := |items| - 1;
      var front := items[..n];
      assert forall k :: 0 <= k < n ==> front[k] == items[k];
      AddAllHolds(t, front);
      var before := AddAll(t, front);
      var after := AddAll(t, items);
      assert after == Add(before, items[n].0, items[n].1);
      var e := CellMap.Entry(G.GetCellIndex(t, items[n].0), items[n].1);
      EntriesSnoc(t, items);
      assert G.GetCellIndex(before, items[n].0) == e.index;
      CellMap.HoldsAfterAppend(before.cells, Entries(t, front), e, after.cells);
    }
  }

  /** The entries of a longer list extend those of its prefix by the last one. */
  lemma EntriesSnoc<R>(t: Table<R>, items: seq<(G.Point2, R)>)
    requires AllQuantizable(t, items)
    requires items != []
    ensures AllQuantizable(t, items[..|items| - 1])
    ensures Entries(t, items) ==
      Entries(t, items[..|items| - 1]) + [CellMap.Entry(G.GetCellIndex(t, items[|items| - 1].0), items[|items| - 1].1)]
  {
    var n := |items| - 1;
    assert forall k :: 0 <= k < n ==> items[..n][k] == items[k];
  }

  /** After inserting `items` into a table with no cells, the data of any cell is
      the list of references inserted at points of that cell, in insertion order;
      in particular it is empty for a cell no point landed in. */
  lemma GetCellDataHistory<R>(t: Table<R>, items: seq<(G.Point2, R)>, i: G.Index2D)
    requires t.cells == map[]
    requires AllQuantizable(t, items)
    ensures GetCellData(AddAll(t, items), i) == CellMap.RefsAt(Entries(t, items), i)
  {
    AddAllHolds(t, items);
  }

  /** The test's single-cell case: one reference added to a fresh table with cell size
      10 at the origin is the only datum of the origin's cell. */
  lemma SingleCellTest()
    ensures G.Quantizable2(G.NewTable<seq<int>>(10.0), G.Point2(0.0, 0.0))
    ensures GetCellData(Add(G.NewTable<seq<int>>(10.0), G.Point2(0.0, 0.0), 1), G.Origin) == [1]
    ensures G.GetCellIndex(G.NewTable<seq<int>>(10.0), G.Point2(0.0, 0.0)) == G.Origin
  {
  }

  /** Coverage and soundness of the centre search, counted with multiplicity: after
      inserting `items` into a table with no cells, the search returns precisely
      the references of the insertions whose cell lies within Chebyshev distance `h`
      of `c`. */
  lemma SquareSearchExact<R(!new)>(t: Table<R>, items: seq<(G.Point2, R)>, c: G.Index2D, h: Int32)
    requires t.cells == map[]
    requires AllQuantizable(t, items)
    requires G.CenterScanSafe(c, h)
    ensures multiset(SquareSearch(AddAll(t, items), c, h)) ==
      CellMap.RefsWhere(Entries(t, items), i => G.InSquare(i, c, h))
  {
    var u := AddAll(t, items);
    AddAllHolds(t, items);
    var idxs := G.SquareSearch(u, c, h);
    G.OrderedDistinct(idxs);
    CellMap.CollectRegion(u.cells, Entries(t, items), idxs, i => G.InSquare(i, c, h));
  }

  /** In plain terms: a reference is returned by the centre search exactly when it
      was inserted at a point whose cell lies within distance `h` of `c`. */
  lemma SquareSearchSoundComplete<R(!new)>(t: Table<R>, items: seq<(G.Point2, R)>, c: G.Index2D, h: Int32, x: R)
    requires t.cells == map[]
    requires AllQuantizable(t, items)
    requires G.CenterScanSafe(c, h)
    ensures x in SquareSearch(AddAll(t, items), c, h) <==>
      exists k :: 0 <= k < |items| && G.InSquare(G.GetCellIndex(t, items[k].0), c, h) && items[k].1 == x
  {
    SquareSearchExact(t, items, c, h);
    var es := Entries(t, items);
    CellMap.RefsWhereMembership(es, i => G.InSquare(i, c, h), x);
    if exists k :: 0 <= k < |es| && G.InSquare(es[k].index, c, h) && es[k].ref == x {
      var k :| 0 <= k < |es| && G.InSquare(es[k].index, c, h) && es[k].ref == x;
      assert G.InSquare(G.GetCellIndex(t, items[k].0), c, h) && items[k].1 == x;
    }
    if exists k :: 0 <= k < |items| && G.InSquare(G.GetCellIndex(t, items[k].0), c, h) && items[k].1 == x {
      var k :| 0 <= k < |items| && G.InSquare(G.GetCellIndex(t, items[k].0), c, h) && items[k].1 == x;
      assert G.InSquare(es[k].index, c, h) && es[k].ref == x;
    }
  }

  /** Coverage and soundness of the corner search, counted with multiplicity: after
      inserting `items` into a table with no cells, the search returns precisely
      the references of the insertions whose cell lies in the box, whichever two
      opposite corners are given and in whichever order. */
  lemma CornerSearchExact<R(!new)>(t: Table<R>, items: seq<(G.Point2, R)>, a: G.Index2D, b: G.Index2D)
    requires t.cells == map[]
    requires AllQuantizable(t, items)
    requires G.CornerScanSafe(a, b)
    ensures multiset(SquareSearchCorners(AddAll(t, items), a, b)) ==
      CellMap.RefsWhere(Entries(t, items), i => InCorners(i, a, b))
    ensures SquareSearchCorners(AddAll(t, items), a, b) == SquareSearchCorners(AddAll(t, items), b, a)
  {
    var u := AddAll(t, items);
    AddAllHolds(t, items);
    var idxs := G.CornerSearch(u, a, b);
    G.OrderedDistinct(idxs);
    CellMap.CollectRegion(u.cells, Entries(t, items), idxs, i => InCorners(i, a, b));
    G.CornerSearchSymmetric(u, a, b);
  }

  /** In plain terms: a reference is returned by the corner search exactly when it
      was inserted at a point whose cell lies in the box. */
  lemma CornerSearchSoundComplete<R(!new)>(t: Table<R>, items: seq<(G.Point2, R)>, a: G.Index2D, b: G.Index2D, x: R)
    requires t.cells == map[]
    requires AllQuantizable(t, items)
    requires G.CornerScanSafe(a, b)
    ensures x in SquareSearchCorners(AddAll(t, items), a, b) <==>
      exists k :: 0 <= k < |items| && InCorners(G.GetCellIndex(t, items[k].0), a, b) && items[k].1 == x
  {
    CornerSearchExact(t, items, a, b);
    var es := Entries(t, items);
    CellMap.RefsWhereMembership(es, i => InCorners(i, a, b), x);
    if exists k :: 0 <= k < |es| && InCorners(es[k].index, a, b) && es[k].ref == x {
      var k :| 0 <= k < |es| && InCorners(es[k].index, a, b) && es[k].ref == x;
      assert InCorners(G.GetCellIndex(t, items[k].0), a, b) && items[k].1 == x;
    }
    if exists k :: 0 <= k < |items| && InCorners(G.GetCellIndex(t, items[k].0), a, b) && items[k].1 == x {
      var k :| 0 <= k < |items| && InCorners(G.GetCellIndex(t, items[k].0), a, b) && items[k].1 == x;
      assert InCorners(es[k].index, a, b) && es[k].ref == x;
    }
  }

  /** The point `v` lies between `p` and `q` on both axes. */
  predicate BetweenReal(v: G.Point2, p: G.Point2, q: G.Point2) {
    ((p.x <= v.x <= q.x) || (q.x <= v.x <= p.x)) && ((p.y <= v.y <= q.y) || (q.y <= v.y <= p.y))
  }

  /** The test's square case: when every inserted point lies in the box spanned by
      two real corners, the real-space corner search returns every inserted
      reference exactly once, whichever corner comes first. */
  lemma RealCornersFindAll<R(!new)>(t: Table<R>, items: seq<(G.Point2, R)>, p: G.Point2, q: G.Point2)
    requires t.cells == map[]
    requires AllQuantizable(t, items)
    requires RealCornersSafe(t, p, q)
    requires forall k :: 0 <= k < |items| ==> BetweenReal(items[k].0, p, q)
    ensures RealCornersSafe(AddAll(t, items), p, q) && RealCornersSafe(AddAll(t, items), q, p)
    ensures multiset(SquareSearchRealCorners(AddAll(t, items), p, q)) == multiset(Refs(items))
    ensures multiset(SquareSearchRealCorners(AddAll(t, items), q, p)) == multiset(Refs(items))
    ensures |SquareSearchRealCorners(AddAll(t, items), p, q)| == |items|
  {
    var a, b := G.GetCellIndex(t, p), G.GetCellIndex(t, q);
    var es := Entries(t, items);
    forall k | 0 <= k < |es|
      ensures InCorners(es[k].index, a, b)
    {
      var v := items[k].0;
      QuantizeBetween(v.x, p.x, q.x, t.invCellSize);
      QuantizeBetween(v.y, p.y, q.y, t.invCellSize);
    }
    CornerSearchExact(t, items, a, b);
    CellMap.RefsWhereAll(es, i => InCorners(i, a, b));
    assert CellMap.Refs(es) == Refs(items);
    var r := SquareSearchRealCorners(AddAll(t, items), p, q);
    assert |multiset(r)| == |r|;
  }

  /** Finding, as written: a point within `half` of the centre can be missed. With
      cell size 1, centre (0.75, 0.75) and half size 0.5, the point (1.25, 0.75) is
      0.5 from the centre, but the truncated extent is 0 and only the centre's cell
      (0, 0) is scanned, while the point lies in cell (1, 0). */
  lemma RealCenterMissesNearPoint()
    ensures G.Quantizable2(G.NewTable<seq<int>>(1.0), G.Point2(1.25, 0.75))
    ensures WithinReal(G.Point2(1.25, 0.75), G.Point2(0.75, 0.75), 0.5)
    ensures RealCenterSafe(Add(G.NewTable<seq<int>>(1.0), G.Point2(1.25, 0.75), 7), G.Point2(0.75, 0.75), 0.5)
    ensures SquareSearchRealCenter(Add(G.NewTable<seq<int>>(1.0), G.Point2(1.25, 0.75), 7), G.Point2(0.75, 0.75), 0.5) == []
  {
    var t := Add(G.NewTable<seq<int>>(1.0), G.Point2(1.25, 0.75), 7);
    assert t.cells.Keys == {G.Index2D(1, 0)};
  }

  /** When the centre lies on a grid line of each axis and `half * inv` is a whole
      number that survives the conversions, the as-written centre search does find
      every reference inserted within `half` of the centre, each exactly once. */
  lemma RealCenterFindsAllAligned<R(!new)>(t: Table<R>, items: seq<(G.Point2, R)>, c: G.Point2, half: real)
    requires t.cells == map[]
    requires AllQuantizable(t, items)
    requires RealCenterSafe(t, c, half) && 0.0 < t.invCellSize
    requires HalfExtent(half, t.invCellSize) as real == half * t.invCellSize
    requires Quantize(c.x, t.invCellSize) as real == c.x * t.invCellSize
    requires Quantize(c.y, t.invCellSize) as real == c.y * t.invCellSize
    requires forall k :: 0 <= k < |items| ==> WithinReal(items[k].0, c, half)
    ensures RealCenterSafe(AddAll(t, items), c, half)
    ensures multiset(SquareSearchRealCenter(AddAll(t, items), c, half)) == multiset(Refs(items))
    ensures |SquareSearchRealCenter(AddAll(t, items), c, half)| == |items|
  {
    var inv := t.invCellSize;
    var ci, e := G.GetCellIndex(t, c), HalfExtent(half, inv);
    var es := Entries(t, items);
    forall k | 0 <= k < |es|
      ensures G.InSquare(es[k].index, ci, e)
    {
      AlignedCellInSquare(t, items[k].0, c, half, e);
    }
    SquareSearchExact(t, items, ci, e);
    CellMap.RefsWhereAll(es, i => G.InSquare(i, ci, e));
    assert CellMap.Refs(es) == Refs(items);
    var r := SquareSearchRealCenter(AddAll(t, items), c, half);
    assert |multiset(r)| == |r|;
  }

  /** With an aligned centre and a whole extent `e`, a point within `half` of the
      centre lies in a cell within distance `e` of the centre's cell. */
  lemma AlignedCellInSquare<R>(t: Table<R>, p: G.Point2, c: G.Point2, half: real, e: int)
    requires G.Quantizable2(t, p) && G.Quantizable2(t, c) && 0.0 < t.invCellSize
    requires e as real == half * t.invCellSize
    requires Quantize(c.x, t.invCellSize) as real == c.x * t.invCellSize
    requires Quantize(c.y, t.invCellSize) as real == c.y * t.invCellSize
    requires WithinReal(p, c, half)
    ensures G.InSquare(G.GetCellIndex(t, p), G.GetCellIndex(t, c), e)
  {
    AxesNear(p.x, p.y, c.x, c.y, half, t.invCellSize, e);
    CellsWithin(t, p, c, e);
  }

  /** `QuantizeNearAligned` on both axes, stated on plain reals. */
  lemma AxesNear(px: real, py: real, cx: real, cy: real, half: real, inv: real, e: int)
    requires 0.0 < inv
    requires e as real == half * inv
    requires Quantize(cx, inv) as real == cx * inv
    requires Quantize(cy, inv) as real == cy * inv
    requires -half <= px - cx <= half && -half <= py - cy <= half
    ensures Abs(Quantize(px, inv) - Quantize(cx, inv)) <= e
    ensures Abs(Quantize(py, inv) - Quantize(cy, inv)) <= e
  {
    QuantizeNearAligned(px, cx, half, inv, e);
    QuantizeNearAligned(py, cy, half, inv, e);
  }

  /** Cells whose coordinates differ by at most `e` on each axis are within
      distance `e` of each other. */
  lemma CellsWithin<R>(t: Table<R>, p: G.Point2, c: G.Point2, e: int)
    requires G.Quantizable2(t, p) && G.Quantizable2(t, c)
    requires Abs(Quantize(p.x, t.invCellSize) - Quantize(c.x, t.invCellSize)) <= e
    requires Abs(Quantize(p.y, t.invCellSize) - Quantize(c.y, t.invCellSize)) <= e
    ensures G.InSquare(G.GetCellIndex(t, p), G.GetCellIndex(t, c), e)
  {
  }

  /** The test's circle case: cell size 10, centre at the origin, half size 100.
      Every reference inserted within 100 of the origin on both axes (in particular
      inside the circle of radius 100) is found exactly once. */
  lemma CircleTest<R(!new)>(items: seq<(G.Point2, R)>)
    requires AllQuantizable(G.NewTable<seq<R>>(10.0), items)
    requires forall k :: 0 <= k < |items| ==> WithinReal(items[k].0, G.Point2(0.0, 0.0), 100.0)
    ensures RealCenterSafe(AddAll(G.NewTable<seq<R>>(10.0), items), G.Point2(0.0, 0.0), 100.0)
    ensures |SquareSearchRealCenter(AddAll(G.NewTable<seq<R>>(10.0), items), G.Point2(0.0, 0.0), 100.0)| == |items|
  {
    var t := G.NewTable<seq<R>>(10.0);
    assert t.invCellSize == 0.1;
    assert HalfExtent(100.0, 0.1) == 10;
    RealCenterFindsAllAligned(t, items, G.Point2(0.0, 0.0), 100.0);
  }

  /** Finding, corrected: with the extent widened by one cell, every reference
      inserted at a point within `half` of the centre on both axes is returned. */
  lemma RealCenterCoveringFindsNear<R(!new)>(t: Table<R>, items: seq<(G.Point2, R)>, c: G.Point2, half: real, k: nat)
    requires t.cells == map[]
    requires AllQuantizable(t, items)
    requires CoveringSafe(t, c, half)
    requires k < |items| && WithinReal(items[k].0, c, half)
    ensures CoveringSafe(AddAll(t, items), c, half)
    ensures items[k].1 in SquareSearchRealCenterCovering(AddAll(t, items), c, half)
  {
    var u := AddAll(t, items);
    var pi := G.GetCellIndex(t, items[k].0);
    NearCellInSquare(t, items[k].0, c, half);
    AddAllHolds(t, items);
    CellMap.RefsAtContains(Entries(t, items), k);
    assert pi in u.cells && items[k].1 in u.cells[pi];
  }

  /** A point within `half` of the centre lies in a cell within the covering extent
      of the centre's cell. */
  lemma NearCellInSquare<R>(t: Table<R>, p: G.Point2, c: G.Point2, half: real)
    requires G.Quantizable2(t, p) && G.Quantizable2(t, c)
    requires 0.0 < t.invCellSize && 0.0 <= half && ExtentDefined(half, t.invCellSize)
    requires WithinReal(p, c, half)
    ensures G.InSquare(G.GetCellIndex(t, p), G.GetCellIndex(t, c), CoveringExtent(half, t.invCellSize))
  {
    QuantizeNearCovering(p.x, c.x, half, t.invCellSize);
    QuantizeNearCovering(p.y, c.y, half, t.invCellSize);
  }

  /** The corrected search does find the point the as-written search misses. */
  lemma RealCenterCoveringFixesExample()
    ensures CoveringSafe(G.NewTable<seq<int>>(1.0), G.Point2(0.75, 0.75), 0.5)
    ensures 7 in SquareSearchRealCenterCovering(Add(G.NewTable<seq<int>>(1.0), G.Point2(1.25, 0.75), 7), G.Point2(0.75, 0.75), 0.5)
  {
    var t := G.NewTable<seq<int>>(1.0);
    var items := [(G.Point2(1.25, 0.75), 7)];
    assert AddAll(t, items) == Add(t, G.Point2(1.25, 0.75), 7) by {
      assert items[..0] == [];
    }
    RealCenterCoveringFindsNear(t, items, G.Point2(0.75, 0.75), 0.5, 0);
  }
}
