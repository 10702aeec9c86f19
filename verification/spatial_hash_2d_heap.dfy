/** `SpatialHash2DHeap.h`: the 2D table whose buckets are bounded priority queues
    that keep, per cell, the `limit` pairs with the largest keys. */
module SpatialHash2DHeap {
  import opened Basics
  import CellMap
  import Containers
  import G = SpatialHash2D

  /** `SpatialHashTable2DHeap<DataType, KeyT, RefType, limit>`: the template bound
      `limit` and the base table with `ContainerHeap` buckets. */
  datatype HeapTable = HeapTable(limit: Containers.Limit, table: G.Table2D<seq<Containers.HeapEntry>>)

  /** Every bucket holds at most `limit` pairs. */
  predicate Bounded(t: HeapTable) {
    forall i :: i in t.table.cells ==> |t.table.cells[i]| <= t.limit
  }

  /** `Add(point, key, ref)`: `table_[GetCellIndex(point)].Add(key, ref)`. Only the
      point's cell changes, created when absent; the table gains at most one cell
      and no bucket outgrows `limit`. */
  function Add(t: HeapTable, p: G.Point2, key: int, ref: int): (r: HeapTable)
    requires G.Quantizable2(t.table, p)
    ensures r.limit == t.limit
    ensures r.table.cellSize == t.table.cellSize && r.table.invCellSize == t.table.invCellSize
    ensures r.table.cells.Keys == t.table.cells.Keys + {G.GetCellIndex(t.table, p)}
    ensures var i := G.GetCellIndex(t.table, p);
      r.table.cells[i] == Containers.HeapAdd(t.limit, if i in t.table.cells then t.table.cells[i] else [], key, ref)
    ensures forall i :: i in t.table.cells && i != G.GetCellIndex(t.table, p) ==> r.table.cells[i] == t.table.cells[i]
    ensures |r.table.cells| <= |t.table.cells| + 1
    ensures Bounded(t) ==> Bounded(r)
  {
    var i := G.GetCellIndex(t.table, p);
    var add := b => Containers.HeapAdd(t.limit, b, key, ref);
    CellMap.UpsertSize(t.table.cells, i, [], add);
    HeapTable(t.limit, G.Add(t.table, p, [], add))
  }

  /** One insertion into the heap table: a point, a key and a reference. */
  datatype Item = Item(point: G.Point2, key: int, ref: int)

  /** Every point of a list of insertions quantises to an `int32_t` cell. */
  predicate AllQuantizable(t: HeapTable, items: seq<Item>) {
    forall k :: 0 <= k < |items| ==> G.Quantizable2(t.table, items[k].point)
  }

  /** Inserting `items` in order. */
  function AddAll(t: HeapTable, items: seq<Item>): (r: HeapTable)
    requires AllQuantizable(t, items)
    ensures r.limit == t.limit
    ensures r.table.cellSize == t.table.cellSize && r.table.invCellSize == t.table.invCellSize
  {
    if items == [] then t
    else
      var n := |items| - 1;
      assert AllQuantizable(t, items[..n]) by {
        assert forall k :: 0 <= k < n ==> items[..n][k] == items[k];
      }
      Add(AddAll(t, items[..n]), items[n].point, items[n].key, items[n].ref)
  }

  /** Whatever is inserted, a table whose buckets respect `limit` keeps respecting it,
      and it gains at most one cell per insertion. */
  lemma {:induction false} AddAllBounded(t: HeapTable, items: seq<Item>)
    requires AllQuantizable(t, items)
    ensures Bounded(t) ==> Bounded(AddAll(t, items))
    ensures |AddAll(t, items).table.cells| <= |t.table.cells| + |items|
  {
    if items != [] {
      var n := |items| - 1;
      assert AllQuantizable(t, items[..n]) by {
        assert forall k :: 0 <= k < n ==> items[..n][k] == items[k];
      }
      AddAllBounded(t, items[..n]);
    }
  }

  /** The `(key, ref)` pairs of `items` whose point lands in cell `i`, in order. */
  function PairsAt(t: HeapTable, items: seq<Item>, i: G.Index2D): seq<Containers.HeapEntry>
    requires AllQuantizable(t, items)
  {
    if items == [] then []
    else
      var n := |items| - 1;
      assert AllQuantizable(t, items[..n]) by {
        assert forall k :: 0 <= k < n ==> items[..n][k] == items[k];
      }
      var last := items[n];
      PairsAt(t, items[..n], i) +
        (if G.GetCellIndex(t.table, last.point) == i then [Containers.HeapEntry(last.key, last.ref)] else [])
  }

  /** After inserting `items` into a table with no cells, a cell is present exactly
      when some pair landed in it, and its bucket is what the bounded queue makes of
      the pairs that landed there, in insertion order. */
  lemma {:induction false} AddAllBuckets(t: HeapTable, items: seq<Item>, i: G.Index2D)
    requires t.table.cells == map[]
    requires AllQuantizable(t, items)
    ensures i in AddAll(t, items).table.cells <==> PairsAt(t, items, i) != []
    ensures i in AddAll(t, items).table.cells ==>
      AddAll(t, items).table.cells[i] == Containers.HeapAddAll(t.limit, [], PairsAt(t, items, i))
  {
    if items != [] {
      var n := |items| - 1;
      var front := items[..n];
      assert AllQuantizable(t, front) by {
        assert forall k :: 0 <= k < n ==> front[k] == items[k];
      }
      AddAllBuckets(t, front, i);
      var before := AddAll(t, front);
      var last := items[n];
      assert G.GetCellIndex(before.table, last.point) == G.GetCellIndex(t.table, last.point);
      BucketStep(before, last.point, last.key, last.ref, i, PairsAt(t, front, i));
    }
  }

  /** One insertion keeps a cell's bucket equal to the bounded queue of the pairs that
      landed in it. */
  lemma BucketStep(before: HeapTable, p: G.Point2, key: int, ref: int, i: G.Index2D, ps: seq<Containers.HeapEntry>)
    requires G.Quantizable2(before.table, p)
    requires i in before.table.cells <==> ps != []
    requires i in before.table.cells ==> before.table.cells[i] == Containers.HeapAddAll(before.limit, [], ps)
    ensures var ps' := ps + (if G.GetCellIndex(before.table, p) == i then [Containers.HeapEntry(key, ref)] else []);
      (i in Add(before, p, key, ref).table.cells <==> ps' != []) &&
      (i in Add(before, p, key, ref).table.cells ==>
        Add(before, p, key, ref).table.cells[i] == Containers.HeapAddAll(before.limit, [], ps'))
  {
    if G.GetCellIndex(before.table, p) == i {
      BucketHit(before, p, key, ref, i, ps);
    } else {
      assert ps + [] == ps;
    }
  }

  /** The step of `BucketStep` where the pair lands in cell `i`. */
  lemma BucketHit(before: HeapTable, p: G.Point2, key: int, ref: int, i: G.Index2D, ps: seq<Containers.HeapEntry>)
    requires G.Quantizable2(before.table, p)
    requires G.GetCellIndex(before.table, p) == i
    requires i in before.table.cells <==> ps != []
    requires i in before.table.cells ==> before.table.cells[i] == Containers.HeapAddAll(before.limit, [], ps)
    ensures i in Add(before, p, key, ref).table.cells
    ensures Add(before, p, key, ref).table.cells[i] ==
      Containers.HeapAddAll(before.limit, [], ps + [Containers.HeapEntry(key, ref)])
  {
    var ps' := ps + [Containers.HeapEntry(key, ref)];
    assert ps'[..|ps|] == ps;
    var prior := if i in before.table.cells then before.table.cells[i] else [];
    assert prior == Containers.HeapAddAll(before.limit, [], ps);
  }

  /** Per cell, the table keeps the largest keys: after inserting `items` into a table
      with no cells, each bucket holds `min(n, limit)` of the `n` pairs that landed
      in its cell, and none of the pairs it turned away or evicted has a larger key
      than a pair it holds. */
  lemma BucketKeepsLargestKeys(t: HeapTable, items: seq<Item>, i: G.Index2D)
    requires t.table.cells == map[]
    requires AllQuantizable(t, items)
    requires i in AddAll(t, items).table.cells
    ensures |AddAll(t, items).table.cells[i]| == Min(|PairsAt(t, items, i)|, t.limit)
    ensures multiset(AddAll(t, items).table.cells[i]) <= multiset(PairsAt(t, items, i))
    ensures Containers.KeysBelow(multiset(PairsAt(t, items, i)) - multiset(AddAll(t, items).table.cells[i]),
                                 AddAll(t, items).table.cells[i])
  {
    AddAllBuckets(t, items, i);
    Containers.HeapKeepsLargestKeys(t.limit, PairsAt(t, items, i));
  }
}
