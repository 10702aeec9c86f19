/** `SpatialHash2D.h`: the 2D cell index, its 64-bit hash, and the sparse table of
    buckets keyed by cell index, with its range scans. The table is generic in the
    bucket type `B`; a bucket's own `Add` is passed in as a function. */
module SpatialHash2D {
  import opened Basics
  import CellMap

  /** `HashIndex2D`: a cell of the integer lattice. */
  datatype Index2D = Index2D(x: Int32, y: Int32)

  /** The default-constructed index. */
  const Origin: Index2D := Index2D(0, 0)

  /** `operator==`: written in the source as the negation of "some coordinate differs". */
  function Equal(a: Index2D, b: Index2D): (r: bool)
    ensures r <==> a == b
  {
    !(a.x != b.x || a.y != b.y)
  }

  /** Both coordinate sums fit `int32_t`, so `operator+` does not overflow. */
  predicate CanAdd(a: Index2D, b: Index2D) {
    InInt32(a.x + b.x) && InInt32(a.y + b.y)
  }

  /** `operator+`: component-wise addition. */
  function Plus(a: Index2D, b: Index2D): (r: Index2D)
    requires CanAdd(a, b)
    ensures r.x - a.x == b.x && r.y - a.y == b.y
  {
    Index2D(a.x + b.x, a.y + b.y)
  }

  /** Index addition is commutative and associative, and has the default index as
      its neutral element. */
  lemma PlusLaws(a: Index2D, b: Index2D, c: Index2D)
    ensures Plus(a, Origin) == a
    ensures CanAdd(a, b) ==> Plus(a, b) == Plus(b, a)
    ensures CanAdd(a, b) && CanAdd(b, c) && CanAdd(Plus(a, b), c) && CanAdd(a, Plus(b, c)) ==>
      Plus(Plus(a, b), c) == Plus(a, Plus(b, c))
  {
  }

  /** `max_size` of `SpatalHash2D`: 2^31, the bias that makes a coordinate non-negative. */
  const HashBias: int := TwoTo31

  /** `SpatalHash2D::operator()`: the biased `x` in the low 32 bits and the biased `y`
      in the high 32 bits. The shift is performed on a signed 64-bit value and every
      step is converted to `uint64_t`; all of that is written out modulo 2^64. The
      result is exactly the two fields side by side, with no wrap-around. */
  function Hash(i: Index2D): (h: nat)
    ensures h == (i.x + TwoTo31) + (i.y + TwoTo31) * TwoTo32
    ensures h < TwoTo64
  {
    Wrap64(Wrap64(i.x + HashBias) + Wrap64((i.y + HashBias) * TwoTo32))
  }

  /** The index whose hash is `h`: the inverse of `Hash`. */
  function Unhash(h: nat): (i: Index2D)
    requires h < TwoTo64
  {
    Index2D(h % TwoTo32 - TwoTo31, h / TwoTo32 - TwoTo31)
  }

  /** Unhashing recovers the index, and hashing an unhashed value gives it back:
      `Hash` is a bijection between indices and 64-bit values. */
  lemma HashRoundTrip(i: Index2D, h: nat)
    requires h < TwoTo64
    ensures Unhash(Hash(i)) == i
    ensures Hash(Unhash(h)) == h
  {
    var lo, hi := i.x + TwoTo31, i.y + TwoTo31;
    assert Hash(i) == lo + hi * TwoTo32;
    assert (lo + hi * TwoTo32) % TwoTo32 == lo;
    assert (lo + hi * TwoTo32) / TwoTo32 == hi;
  }

  /** Distinct indices never share a hash: the two coordinates occupy disjoint halves. */
  lemma HashInjective(a: Index2D, b: Index2D)
    ensures Hash(a) == Hash(b) <==> a == b
  {
    if Hash(a) == Hash(b) {
      HashRoundTrip(a, 0);
      HashRoundTrip(b, 0);
    }
  }

  /** The boundary values of the conversion test: the origin hashes to 2^63 + 2^31,
      the smallest index hashes to 0, and the index the test builds from 2^31 (and
      from -2^31 computed in `uint64_t`) narrows to that smallest index. */
  lemma ConversionTest()
    ensures Hash(Origin) == TwoTo63 + TwoTo31
    ensures Hash(Index2D(MinInt32, MinInt32)) == 0
    ensures NarrowToInt32(TwoTo31) == MinInt32
    ensures NarrowToInt32(TwoTo64 - TwoTo31) == MinInt32
  {
  }

  /** A point of the continuous plane. */
  datatype Point2 = Point2(x: real, y: real)

  /** `SpatialHashTable2D`: the cell size, its inverse, and `table_`, the populated
      cells with their buckets. */
  datatype Table2D<B> = Table2D(cellSize: real, invCellSize: real, cells: map<Index2D, B>)

  /** The default constructor: both sizes zero and no cells. */
  function DefaultTable<B>(): (t: Table2D<B>)
    ensures t.cells == map[]
    ensures t.cellSize == 0.0 && t.invCellSize == 0.0
  {
    Table2D(0.0, 0.0, map[])
  }

  /** The constructor with a cell size: the inverse is its reciprocal. */
  function NewTable<B>(cellSize: real): (t: Table2D<B>)
    requires cellSize != 0.0
    ensures t.cells == map[]
    ensures t.cellSize == cellSize && t.cellSize * t.invCellSize == 1.0
  {
    Table2D(cellSize, 1.0 / cellSize, map[])
  }

  /** `Clear`: drops every cell, keeps the sizes. */
  function Clear<B>(t: Table2D<B>): (r: Table2D<B>)
    ensures r.cells == map[]
    ensures r.cellSize == t.cellSize && r.invCellSize == t.invCellSize
  {
    t.(cells := map[])
  }

  /** `SetCellSize`: clears the table, then installs the new size and its reciprocal. */
  function SetCellSize<B>(t: Table2D<B>, cellSize: real): (r: Table2D<B>)
    requires cellSize != 0.0
    ensures r.cells == map[]
    ensures r.cellSize == cellSize && r.cellSize * r.invCellSize == 1.0
  {
    var c := Clear(t);
    c.(cellSize := cellSize, invCellSize := 1.0 / cellSize)
  }

  /** Both coordinates of `p` quantise to values that fit the `int32_t` they are cast to. */
  predicate Quantizable2<B>(t: Table2D<B>, p: Point2) {
    Quantizable(p.x, t.invCellSize) && Quantizable(p.y, t.invCellSize)
  }

  /** `GetCellIndex`: the cell whose scaled unit square contains the scaled point. */
  function GetCellIndex<B>(t: Table2D<B>, p: Point2): (i: Index2D)
    requires Quantizable2(t, p)
    ensures i.x as real <= p.x * t.invCellSize < i.x as real + 1.0
    ensures i.y as real <= p.y * t.invCellSize < i.y as real + 1.0
  {
    Index2D(Quantize(p.x, t.invCellSize), Quantize(p.y, t.invCellSize))
  }

  /** With a positive cell size, the cell of `p` is the cell of side `cellSize`
      containing `p`. With the default table (inverse size 0) every point lands in
      the default cell. */
  lemma GetCellIndexContains<B>(t: Table2D<B>, p: Point2)
    requires Quantizable2(t, p)
    ensures 0.0 < t.cellSize && t.cellSize * t.invCellSize == 1.0 ==>
      GetCellIndex(t, p).x as real * t.cellSize <= p.x < (GetCellIndex(t, p).x as real + 1.0) * t.cellSize
    ensures 0.0 < t.cellSize && t.cellSize * t.invCellSize == 1.0 ==>
      GetCellIndex(t, p).y as real * t.cellSize <= p.y < (GetCellIndex(t, p).y as real + 1.0) * t.cellSize
    ensures t.invCellSize == 0.0 ==> GetCellIndex(t, p) == Origin
  {
    var i := GetCellIndex(t, p);
    if 0.0 < t.cellSize && t.cellSize * t.invCellSize == 1.0 {
      var s, inv := t.cellSize, t.invCellSize;
      assert p.x * inv * s == p.x * (s * inv);
      assert i.x as real * s <= p.x * inv * s;
      assert p.x * inv * s < (i.x as real + 1.0) * s;
      assert p.y * inv * s == p.y * (s * inv);
      assert i.y as real * s <= p.y * inv * s;
      assert p.y * inv * s < (i.y as real + 1.0) * s;
    }
  }

  /** `Add(point, ref)`: `table_[GetCellIndex(point)].Add(ref)`, with the bucket's
      `Add` given as `bucketAdd` and a default-constructed bucket as `empty`. Only the
      cell of `p` changes; it is created when absent. */
  function Add<B>(t: Table2D<B>, p: Point2, empty: B, bucketAdd: B -> B): (r: Table2D<B>)
    requires Quantizable2(t, p)
    ensures r.cellSize == t.cellSize && r.invCellSize == t.invCellSize
    ensures r.cells.Keys == t.cells.Keys + {GetCellIndex(t, p)}
    ensures r.cells[GetCellIndex(t, p)] ==
      bucketAdd(if GetCellIndex(t, p) in t.cells then t.cells[GetCellIndex(t, p)] else empty)
    ensures forall i :: i in t.cells && i != GetCellIndex(t, p) ==> r.cells[i] == t.cells[i]
  {
    t.(cells := CellMap.Upsert(t.cells, GetCellIndex(t, p), empty, bucketAdd))
  }

  /** `GetCell`: the bucket of a populated cell, nothing for any other cell. */
  function GetCell<B>(t: Table2D<B>, i: Index2D): (r: Option<B>)
    ensures r.Some? <==> i in t.cells
    ensures r.Some? ==> r.value == t.cells[i]
  {
    if i in t.cells then Some(t.cells[i]) else None
  }

  /** The lifecycle seen through `GetCell`: after `Add` the point's cell holds the
      updated bucket and every other cell reads as before; after `Clear` and
      `SetCellSize` every cell reads as absent. */
  lemma GetCellLifecycle<B>(t: Table2D<B>, p: Point2, empty: B, bucketAdd: B -> B, i: Index2D, cellSize: real)
    requires Quantizable2(t, p)
    requires cellSize != 0.0
    ensures GetCell(Add(t, p, empty, bucketAdd), GetCellIndex(t, p)) ==
      Some(bucketAdd(match GetCell(t, GetCellIndex(t, p)) case Some(b) => b case None => empty))
    ensures i != GetCellIndex(t, p) ==> GetCell(Add(t, p, empty, bucketAdd), i) == GetCell(t, i)
    ensures GetCell(Clear(t), i) == None
    ensures GetCell(SetCellSize(t, cellSize), i) == None
  {
  }

  /** The order in which the scans visit cells: by `x`, then by `y`. */
  predicate Before(a: Index2D, b: Index2D) {
    a.x < b.x || (a.x == b.x && a.y < b.y)
  }

  predicate StrictlyOrdered(s: seq<Index2D>) {
    forall j, k :: 0 <= j < k < |s| ==> Before(s[j], s[k])
  }

  /** A scan in visiting order lists no cell twice. */
  lemma OrderedDistinct(s: seq<Index2D>)
    requires StrictlyOrdered(s)
    ensures CellMap.Distinct(s)
  {
  }

  /** Two scans in visiting order that list the same cells are the same scan. */
  lemma {:induction false} OrderedUnique(a: seq<Index2D>, b: seq<Index2D>)
    requires StrictlyOrdered(a) && StrictlyOrdered(b)
    requires forall i :: i in a <==> i in b
    ensures a == b
    decreases |a|
  {
    // Neither can be empty while the other is not.
    assert a != [] ==> a[0] in b;
    assert b != [] ==> b[0] in a;
    if a != [] && b != [] {
      var n, m := |a| - 1, |b| - 1;
      // The last cell of each is the largest cell of both.
      assert a[n] in b;
      assert b[m] in a;
      assert a[n] == b[m];
      forall i ensures i in a[..n] <==> i in b[..m] {
        if i in a[..n] {
          var k :| 0 <= k < n && a[k] == i;
          assert Before(i, a[n]);
          assert i in a;
          assert i in b;
          var j :| 0 <= j < |b| && b[j] == i;
          assert j < m && b[..m][j] == i;
        }
        if i in b[..m] {
          var k :| 0 <= k < m && b[k] == i;
          assert Before(i, b[m]);
          assert i in b;
          assert i in a;
          var j :| 0 <= j < |a| && a[j] == i;
          assert j < n && a[..n][j] == i;
        }
      }
      OrderedUnique(a[..n], b[..m]);
      assert a == a[..n] + [a[n]];
      assert b == b[..m] + [b[m]];
    }
  }

  /** The populated cells `(x, y)` with `yLo <= y <= yHi`, by increasing `y`: one
      run of the inner scan loop. */
  function Column<B>(cells: map<Index2D, B>, x: Int32, yLo: int, yHi: int): seq<Index2D>
    requires MinInt32 <= yLo && yHi <= MaxInt32
    decreases yHi - yLo
  {
    if yHi < yLo then []
    else
      var here := Index2D(x, yHi);
      Column(cells, x, yLo, yHi - 1) + (if here in cells then [here] else [])
  }

  /** A column lists exactly its populated cells, by increasing `y`. */
  lemma {:induction false} ColumnSpec<B>(cells: map<Index2D, B>, x: Int32, yLo: int, yHi: int)
    requires MinInt32 <= yLo && yHi <= MaxInt32
    ensures forall i :: i in Column(cells, x, yLo, yHi) <==> i in cells && i.x == x && yLo <= i.y <= yHi
    ensures forall j, k :: 0 <= j < k < |Column(cells, x, yLo, yHi)| ==>
      Column(cells, x, yLo, yHi)[j].y < Column(cells, x, yLo, yHi)[k].y
    decreases yHi - yLo
  {
    if yLo <= yHi {
      ColumnSpec(cells, x, yLo, yHi - 1);
    }
  }

  /** The populated cells of the inclusive box `[xLo, xHi] x [yLo, yHi]`, in
      visiting order: the nested scan loops. */
  function Box<B>(cells: map<Index2D, B>, xLo: int, xHi: int, yLo: int, yHi: int): seq<Index2D>
    requires MinInt32 <= xLo && xHi <= MaxInt32
    requires MinInt32 <= yLo && yHi <= MaxInt32
    decreases xHi - xLo
  {
    if xHi < xLo then []
    else Box(cells, xLo, xHi - 1, yLo, yHi) + Column(cells, xHi, yLo, yHi)
  }

  /** A box lists exactly its populated cells, each once, in visiting order. */
  lemma {:induction false} BoxSpec<B>(cells: map<Index2D, B>, xLo: int, xHi: int, yLo: int, yHi: int)
    requires MinInt32 <= xLo && xHi <= MaxInt32
    requires MinInt32 <= yLo && yHi <= MaxInt32
    ensures forall i :: i in Box(cells, xLo, xHi, yLo, yHi) <==> i in cells && xLo <= i.x <= xHi && yLo <= i.y <= yHi
    ensures StrictlyOrdered(Box(cells, xLo, xHi, yLo, yHi))
    decreases xHi - xLo
  {
    if xLo <= xHi {
      var front := Box(cells, xLo, xHi - 1, yLo, yHi);
      var col := Column(cells, xHi, yLo, yHi);
      BoxSpec(cells, xLo, xHi - 1, yLo, yHi);
      ColumnSpec(cells, xHi, yLo, yHi);
      forall j, k | 0 <= j < |front| && 0 <= k < |col|
        ensures front[j].x < col[k].x
      {
        assert front[j] in front;
        assert col[k] in col;
      }
    }
  }

  /** One more step of the inner loop extends the column by the cell it visits. */
  lemma ColumnNext<B>(cells: map<Index2D, B>, x: Int32, yLo: int, y: Int32)
    requires MinInt32 <= yLo <= y
    ensures Column(cells, x, yLo, y) ==
      Column(cells, x, yLo, y - 1) + (if Index2D(x, y) in cells then [Index2D(x, y)] else [])
  {
  }

  /** One more run of the outer loop extends the box by one column. */
  lemma BoxNext<B>(cells: map<Index2D, B>, xLo: int, x: Int32, yLo: int, yHi: int)
    requires MinInt32 <= xLo <= x
    requires MinInt32 <= yLo && yHi <= MaxInt32
    ensures Box(cells, xLo, x, yLo, yHi) == Box(cells, xLo, x - 1, yLo, yHi) + Column(cells, x, yLo, yHi)
  {
  }

  /** The cell `i` lies within Chebyshev distance `h` of `c`. */
  predicate InSquare(i: Index2D, c: Index2D, h: int) {
    Abs(i.x - c.x) <= h && Abs(i.y - c.y) <= h
  }

  /** The Chebyshev ball as the inclusive box the scan loops walk. */
  lemma InSquareAsBox(c: Index2D, h: int)
    ensures forall i :: InSquare(i, c, h) <==> c.x - h <= i.x <= c.x + h && c.y - h <= i.y <= c.y + h
  {
  }

  /** The `int32_t` arithmetic of the centre scan stays in range and its loops end:
      both `x` bounds fit, and when the loops run the `y` bounds fit too and neither
      upper bound is `INT32_MAX` (where `++` would overflow before the test fails). */
  predicate CenterScanSafe(c: Index2D, h: int) {
    InInt32(c.x - h) && InInt32(c.x + h) &&
    (0 <= h ==> c.x + h < MaxInt32 && MinInt32 <= c.y - h && c.y + h < MaxInt32)
  }

  /** `SquareSearch(center, half_size)` of the base table: the populated cells
      within Chebyshev distance `h` of `c`, each once, by `x` then `y`. Cells are
      reported by index; the bucket of each is `t.cells[i]`. */
  function SquareSearch<B>(t: Table2D<B>, c: Index2D, h: Int32): (r: seq<Index2D>)
    requires CenterScanSafe(c, h)
    ensures forall i :: i in r <==> i in t.cells && InSquare(i, c, h)
    ensures StrictlyOrdered(r)
  {
    var xLo, xHi, yLo, yHi := c.x - h, c.x + h, c.y - h, c.y + h;
    BoxSpec(t.cells, xLo, xHi, yLo, yHi);
    InSquareAsBox(c, h);
    Box(t.cells, xLo, xHi, yLo, yHi)
  }

  /** A negative half size finds nothing; half size 0 finds at most the centre. */
  lemma SquareSearchDegenerate<B>(t: Table2D<B>, c: Index2D, h: Int32)
    requires CenterScanSafe(c, h)
    ensures h < 0 ==> SquareSearch(t, c, h) == []
    ensures h == 0 ==> SquareSearch(t, c, h) == (if c in t.cells then [c] else [])
  {
    var r := SquareSearch(t, c, h);
    if h == 0 {
      var e: seq<Index2D> := if c in t.cells then [c] else [];
      forall i ensures i in r <==> i in e {
        if i in r {
          assert InSquare(i, c, h);
          assert i == c;
        }
      }
      OrderedUnique(r, e);
    }
  }

  /** The corner scan's swaps: each axis independently ordered low to high. */
  function Normalize(a: Index2D, b: Index2D): (r: (Index2D, Index2D))
    ensures r.0.x == Min(a.x, b.x) && r.1.x == Max(a.x, b.x)
    ensures r.0.y == Min(a.y, b.y) && r.1.y == Max(a.y, b.y)
  {
    var (lx, hx) := if b.x < a.x then (b.x, a.x) else (a.x, b.x);
    var (ly, hy) := if b.y < a.y then (b.y, a.y) else (a.y, b.y);
    (Index2D(lx, ly), Index2D(hx, hy))
  }

  /** The corner scan's loops end: neither upper bound is `INT32_MAX`. */
  predicate CornerScanSafe(a: Index2D, b: Index2D) {
    a.x < MaxInt32 && b.x < MaxInt32 && a.y < MaxInt32 && b.y < MaxInt32
  }

  /** `SquareSearch(left_top, right_bottom)` of the base table: the populated cells
      whose coordinates lie between those of the two corners, each once, by `x`
      then `y`. */
  function CornerSearch<B>(t: Table2D<B>, a: Index2D, b: Index2D): (r: seq<Index2D>)
    requires CornerScanSafe(a, b)
    ensures forall i :: i in r <==> i in t.cells && Between(i.x, a.x, b.x) && Between(i.y, a.y, b.y)
    ensures StrictlyOrdered(r)
  {
    var (lo, hi) := Normalize(a, b);
    BoxSpec(t.cells, lo.x, hi.x, lo.y, hi.y);
    Box(t.cells, lo.x, hi.x, lo.y, hi.y)
  }

  /** The corner scan does not depend on which corners of the box are given, nor in
      which order. */
  lemma CornerSearchSymmetric<B>(t: Table2D<B>, a: Index2D, b: Index2D)
    requires CornerScanSafe(a, b)
    ensures CornerSearch(t, a, b) == CornerSearch(t, b, a)
    ensures CornerSearch(t, a, b) == CornerSearch(t, Index2D(a.x, b.y), Index2D(b.x, a.y))
  {
    var r := CornerSearch(t, a, b);
    OrderedUnique(r, CornerSearch(t, b, a));
    OrderedUnique(r, CornerSearch(t, Index2D(a.x, b.y), Index2D(b.x, a.y)));
  }

  /** The centre scan with a non-negative half size is the corner scan of the
      box from `c - (h, h)` to `c + (h, h)`. */
  lemma SquareIsCornerBox<B>(t: Table2D<B>, c: Index2D, h: Int32)
    requires CenterScanSafe(c, h) && 0 <= h
    ensures CanAdd(c, Index2D(-h, -h)) && CanAdd(c, Index2D(h, h))
    ensures CornerScanSafe(Plus(c, Index2D(-h, -h)), Plus(c, Index2D(h, h)))
    ensures SquareSearch(t, c, h) == CornerSearch(t, Plus(c, Index2D(-h, -h)), Plus(c, Index2D(h, h)))
  {
    var a, b := Plus(c, Index2D(-h, -h)), Plus(c, Index2D(h, h));
    OrderedUnique(SquareSearch(t, c, h), CornerSearch(t, a, b));
  }

  /** The inner scan loop: one column, by increasing `y`, pushing each populated
      cell found. */
  method ColumnLoop<B>(t: Table2D<B>, x: Int32, yLo: Int32, yHi: Int32) returns (r: seq<Index2D>)
    requires yHi < MaxInt32
    ensures r == Column(t.cells, x, yLo, yHi)
  {
    r := [];
    var y: Int32 := yLo;
    while y <= yHi
      invariant yLo <= y && (y <= yHi + 1 || y == yLo)
      invariant r == Column(t.cells, x, yLo, y - 1)
      decreases yHi - y
    {
      ColumnNext(t.cells, x, yLo, y);
      var p := Index2D(x, y);
      if p in t.cells {
        r := r + [p];
      }
      y := y + 1;
    }
  }

  /** The centre scan as the source writes it: two nested counting loops over
      `int32_t`, the inner one being `ColumnLoop`. */
  method SquareSearchLoop<B>(t: Table2D<B>, c: Index2D, h: Int32) returns (r: seq<Index2D>)
    requires CenterScanSafe(c, h)
    ensures r == SquareSearch(t, c, h)
  {
    r := [];
    var xLo: Int32, xHi: Int32 := c.x - h, c.x + h;
    var x: Int32 := xLo;
    while x <= xHi
      invariant xLo <= x && (x <= xHi + 1 || x == xLo)
      invariant r == Box(t.cells, xLo, x - 1, c.y - h, c.y + h)
      decreases xHi - x
    {
      assert 0 <= h;
      var col := ColumnLoop(t, x, c.y - h, c.y + h);
      BoxNext(t.cells, xLo, x, c.y - h, c.y + h);
      r := r + col;
      x := x + 1;
    }
  }

  /** The corner scan as the source writes it: the two swaps, then two nested
      counting loops over `int32_t`, the inner one being `ColumnLoop`. */
  method CornerSearchLoop<B>(t: Table2D<B>, a: Index2D, b: Index2D) returns (r: seq<Index2D>)
    requires CornerScanSafe(a, b)
    ensures r == CornerSearch(t, a, b)
  {
    var lo, hi := a, b;
    if hi.x < lo.x {
      lo, hi := lo.(x := hi.x), hi.(x := lo.x);
    }
    if hi.y < lo.y {
      lo, hi := lo.(y := hi.y), hi.(y := lo.y);
    }
    r := [];
    var x: Int32 := lo.x;
    while x <= hi.x
      invariant lo.x <= x <= hi.x + 1
      invariant r == Box(t.cells, lo.x, x - 1, lo.y, hi.y)
      decreases hi.x - x
    {
      var col := ColumnLoop(t, x, lo.y, hi.y);
      BoxNext(t.cells, lo.x, x, lo.y, hi.y);
      r := r + col;
      x := x + 1;
    }
  }
}
