/** Facts about a sparse cell table `map<I, B>` that hold whatever the index type:
    the `table_[index].Add(...)` update, reading the buckets of a list of cells,
    flattening buckets into one sequence, and accounting for the references that
    a history of insertions leaves in the table. */
module CellMap {

  /** One insertion, after quantisation: the cell it lands in and its reference. */
  datatype Entry<I, R> = Entry(index: I, ref: R)

  /** `table_[k].Add(...)`: `operator[]` default-constructs the bucket at `k`
      when the cell is absent, and the bucket's own `Add` is then applied. */
  function Upsert<I(==), B>(m: map<I, B>, k: I, empty: B, add: B -> B): (r: map<I, B>)
    ensures r.Keys == m.Keys + {k}
    ensures r[k] == add(if k in m then m[k] else empty)
    ensures forall j :: j in m && j != k ==> r[j] == m[j]
  {
    m[k := add(if k in m then m[k] else empty)]
  }

  /** Adding a key grows a map by at most one entry. */
  lemma UpsertSize<I, B>(m: map<I, B>, k: I, empty: B, add: B -> B)
    ensures |Upsert(m, k, empty, add)| <= |m| + 1
    ensures k in m ==> |Upsert(m, k, empty, add)| == |m|
  {
    var r := Upsert(m, k, empty, add);
    if k in m {
      assert r.Keys == m.Keys;
    } else {
      assert r.Keys == m.Keys + {k};
    }
  }

  predicate Distinct<I(==)>(s: seq<I>) {
    forall j, k :: 0 <= j < k < |s| ==> s[j] != s[k]
  }

  /** The buckets of the cells `idxs`, in that order. */
  function Lookup<I(==), B>(m: map<I, B>, idxs: seq<I>): (r: seq<B>)
    requires forall k :: 0 <= k < |idxs| ==> idxs[k] in m
    ensures |r| == |idxs|
    ensures forall k :: 0 <= k < |idxs| ==> r[k] == m[idxs[k]]
  {
    if idxs == [] then [] else Lookup(m, idxs[..|idxs| - 1]) + [m[idxs[|idxs| - 1]]]
  }

  lemma LookupAppend<I, B>(m: map<I, B>, a: seq<I>, b: seq<I>)
    requires forall k :: 0 <= k < |a| ==> a[k] in m
    requires forall k :: 0 <= k < |b| ==> b[k] in m
    ensures forall k :: 0 <= k < |a + b| ==> (a + b)[k] in m
    ensures Lookup(m, a + b) == Lookup(m, a) + Lookup(m, b)
  {
    assert forall k :: 0 <= k < |a + b| ==> (a + b)[k] in m by {
      forall k | 0 <= k < |a + b|
        ensures (a + b)[k] in m
      {
        if k < |a| { assert (a + b)[k] == a[k]; } else { assert (a + b)[k] == b[k - |a|]; }
      }
    }
  }

  /** All buckets laid end to end, as the façades' `result.insert(result.end(), ...)` loops do. */
  function Concat<R>(bs: seq<seq<R>>): (r: seq<R>)
  {
    if bs == [] then [] else Concat(bs[..|bs| - 1]) + bs[|bs| - 1]
  }

  lemma {:induction false} ConcatAppend<R>(a: seq<seq<R>>, b: seq<seq<R>>)
    ensures Concat(a + b) == Concat(a) + Concat(b)
    decreases |b|
  {
    if b == [] {
      assert a + b == a;
    } else {
      var b', last := b[..|b| - 1], b[|b| - 1];
      assert b == b' + [last];
      assert a + b == (a + b') + [last];
      ConcatAppend(a, b');
      ConcatSnoc(a + b', last);
      ConcatSnoc(b', last);
    }
  }

  /** Concatenating one more bucket appends its contents. */
  lemma ConcatSnoc<R>(bs: seq<seq<R>>, last: seq<R>)
    ensures Concat(bs + [last]) == Concat(bs) + last
  {
    assert (bs + [last])[..|bs|] == bs;
  }

  /** A value occurs in the concatenation exactly when it occurs in one of the buckets. */
  lemma {:induction false} ConcatMembership<R>(bs: seq<seq<R>>, x: R)
    ensures x in Concat(bs) <==> exists k :: 0 <= k < |bs| && x in bs[k]
  {
    if bs != [] {
      var n := |bs| - 1;
      ConcatMembership(bs[..n], x);
      if x in Concat(bs[..n]) {
        var k :| 0 <= k < n && x in bs[..n][k];
        assert x in bs[k];
      }
      if exists k :: 0 <= k < |bs| && x in bs[k] {
        var k :| 0 <= k < |bs| && x in bs[k];
        if k < n {
          assert x in bs[..n][k];
        }
      }
    }
  }

  /** A value occurs in the flattened buckets of `idxs` exactly when it occurs in
      the bucket of one of those cells. */
  lemma LookupConcatMembership<I, R>(m: map<I, seq<R>>, idxs: seq<I>, x: R)
    requires forall k :: 0 <= k < |idxs| ==> idxs[k] in m
    ensures x in Concat(Lookup(m, idxs)) <==> exists i :: i in idxs && i in m && x in m[i]
  {
    var bs := Lookup(m, idxs);
    ConcatMembership(bs, x);
    if exists i :: i in idxs && i in m && x in m[i] {
      var i :| i in idxs && i in m && x in m[i];
      var k :| 0 <= k < |idxs| && idxs[k] == i;
      assert x in bs[k];
    }
  }

  /** When `idxs` lists exactly the present cells of a region, the flattened buckets
      hold a value exactly when some present cell of the region holds it. */
  lemma FlattenRegion<I, R>(m: map<I, seq<R>>, idxs: seq<I>, inRegion: I -> bool, x: R)
    requires forall i :: i in idxs <==> i in m && inRegion(i)
    ensures forall k :: 0 <= k < |idxs| ==> idxs[k] in m
    ensures x in Concat(Lookup(m, idxs)) <==> exists i :: i in m && inRegion(i) && x in m[i]
  {
    assert forall k :: 0 <= k < |idxs| ==> idxs[k] in idxs;
    LookupConcatMembership(m, idxs, x);
  }

  /** `FlattenRegion` for every value at once. */
  lemma FlattenRegionAll<I, R(!new)>(m: map<I, seq<R>>, idxs: seq<I>, inRegion: I -> bool)
    requires forall i :: i in idxs <==> i in m && inRegion(i)
    ensures forall k :: 0 <= k < |idxs| ==> idxs[k] in m
    ensures forall x :: x in Concat(Lookup(m, idxs)) <==> exists i :: i in m && inRegion(i) && x in m[i]
  {
    assert forall k :: 0 <= k < |idxs| ==> idxs[k] in idxs;
    forall x {
      FlattenRegion(m, idxs, inRegion, x);
    }
  }

  /** The façades' flattening loop: for each cell found, in order, its bucket's
      contents are appended to the result. */
  method Flatten<I, R>(m: map<I, seq<R>>, idxs: seq<I>) returns (r: seq<R>)
    requires forall k :: 0 <= k < |idxs| ==> idxs[k] in m
    ensures r == Concat(Lookup(m, idxs))
  {
    r := [];
    var n := 0;
    while n < |idxs|
      invariant 0 <= n <= |idxs|
      invariant r == Concat(Lookup(m, idxs[..n]))
    {
      var front := idxs[..n];
      assert idxs[..n + 1] == front + [idxs[n]];
      FlattenStep(m, front, idxs[n]);
      r := r + m[idxs[n]];
      n := n + 1;
    }
    assert idxs[..n] == idxs;
  }

  /** One more cell appends its bucket to the flattened prefix. */
  lemma FlattenStep<I, R>(m: map<I, seq<R>>, front: seq<I>, j: I)
    requires forall k :: 0 <= k < |front| ==> front[k] in m
    requires j in m
    ensures forall k :: 0 <= k < |front + [j]| ==> (front + [j])[k] in m
    ensures Concat(Lookup(m, front + [j])) == Concat(Lookup(m, front)) + m[j]
  {
    assert (front + [j])[..|front|] == front;
  }

  /** The references of `es`, in insertion order. */
  function Refs<I(==), R>(es: seq<Entry<I, R>>): (r: seq<R>)
    ensures |r| == |es|
    ensures forall k :: 0 <= k < |es| ==> r[k] == es[k].ref
  {
    seq(|es|, k requires 0 <= k < |es| => es[k].ref)
  }

  /** The references `es` files under cell `i`, in insertion order: the contents a
      vector bucket at `i` acquires when `es` is added to an empty table. */
  function RefsAt<I(==), R>(es: seq<Entry<I, R>>, i: I): seq<R>
  {
    if es == [] then []
    else RefsAt(es[..|es| - 1], i) + (if es[|es| - 1].index == i then [es[|es| - 1].ref] else [])
  }

  /** The references of `es` whose cell lies in the set `s`. */
  function RefsIn<I(==), R>(es: seq<Entry<I, R>>, s: set<I>): multiset<R>
  {
    if es == [] then multiset{}
    else RefsIn(es[..|es| - 1], s) + (if es[|es| - 1].index in s then multiset{es[|es| - 1].ref} else multiset{})
  }

  /** The references of `es` whose cell satisfies `inRegion`. */
  function RefsWhere<I(==), R>(es: seq<Entry<I, R>>, inRegion: I -> bool): multiset<R>
  {
    if es == [] then multiset{}
    else
      var last := es[|es| - 1];
      RefsWhere(es[..|es| - 1], inRegion) + (if inRegion(last.index) then multiset{last.ref} else multiset{})
  }

  /** `cells` holds exactly what appending the references of `es`, in order, to an
      empty table leaves there: a cell is present iff some entry lands in it, and
      its bucket lists that cell's references in insertion order. */
  ghost predicate Holds<I(!new), R>(cells: map<I, seq<R>>, es: seq<Entry<I, R>>) {
    forall i :: (i in cells <==> RefsAt(es, i) != []) && (i in cells ==> cells[i] == RefsAt(es, i))
  }

  lemma HoldsEmpty<I(!new), R>(cells: map<I, seq<R>>)
    requires cells == map[]
    ensures Holds(cells, [])
  {
  }

  /** Appending one more entry to its cell's bucket keeps `Holds`. */
  lemma HoldsAfterAppend<I(!new), R>(cells: map<I, seq<R>>, es: seq<Entry<I, R>>, e: Entry<I, R>, cells': map<I, seq<R>>)
    requires Holds(cells, es)
    requires cells'.Keys == cells.Keys + {e.index}
    requires cells'[e.index] == (if e.index in cells then cells[e.index] else []) + [e.ref]
    requires forall j :: j in cells && j != e.index ==> cells'[j] == cells[j]
    ensures Holds(cells', es + [e])
  {
    var es' := es + [e];
    assert es'[..|es'| - 1] == es;
    forall i
      ensures (i in cells' <==> RefsAt(es', i) != []) && (i in cells' ==> cells'[i] == RefsAt(es', i))
    {
      assert RefsAt(es', i) == RefsAt(es, i) + (if e.index == i then [e.ref] else []);
    }
  }

  /** An entry's reference is among those filed under its own cell. */
  lemma {:induction false} RefsAtContains<I, R>(es: seq<Entry<I, R>>, k: nat)
    requires k < |es|
    ensures es[k].ref in RefsAt(es, es[k].index)
  {
    var n := |es| - 1;
    if k < n {
      RefsAtContains(es[..n], k);
    }
  }

  /** Removing `j` from the set removes exactly the references filed under `j`. */
  lemma {:induction false} RefsInAdd<I, R>(es: seq<Entry<I, R>>, s: set<I>, j: I)
    requires j !in s
    ensures RefsIn(es, s + {j}) == RefsIn(es, s) + multiset(RefsAt(es, j))
  {
    if es != [] {
      var n := |es| - 1;
      RefsInAdd(es[..n], s, j);
    }
  }

  /** Counting by a set or by a predicate agrees when they agree on every entry's cell. */
  lemma {:induction false} RefsInWhere<I, R>(es: seq<Entry<I, R>>, s: set<I>, inRegion: I -> bool)
    requires forall k :: 0 <= k < |es| ==> (es[k].index in s <==> inRegion(es[k].index))
    ensures RefsIn(es, s) == RefsWhere(es, inRegion)
  {
    if es != [] {
      var n := |es| - 1;
      assert forall k :: 0 <= k < n ==> es[..n][k] == es[k];
      RefsInWhere(es[..n], s, inRegion);
    }
  }

  /** The cells listed in `idxs`, as a set. */
  ghost function Elems<I(!new)>(idxs: seq<I>): (s: set<I>)
    ensures forall i :: i in s <==> i in idxs
  {
    if idxs == [] then {} else Elems(idxs[..|idxs| - 1]) + {idxs[|idxs| - 1]}
  }

  /** Cell `i` is present and holds the references `es` files under it. */
  ghost predicate Stored<I, R>(cells: map<I, seq<R>>, es: seq<Entry<I, R>>, i: I) {
    i in cells && cells[i] == RefsAt(es, i)
  }

  /** Flattening the buckets of distinct cells yields, as a multiset, exactly the
      references filed under those cells. */
  lemma {:induction false} ConcatLookupRefs<I(!new), R>(cells: map<I, seq<R>>, es: seq<Entry<I, R>>, idxs: seq<I>)
    requires Distinct(idxs)
    requires forall k :: 0 <= k < |idxs| ==> idxs[k] in cells
    requires forall k :: 0 <= k < |idxs| ==> Stored(cells, es, idxs[k])
    ensures multiset(Concat(Lookup(cells, idxs))) == RefsIn(es, Elems(idxs))
  {
    if idxs == [] {
      RefsInEmpty(es);
    } else {
      var n := |idxs| - 1;
      var front, j := idxs[..n], idxs[n];
      DropLast(cells, es, idxs, front, j);
      ConcatLookupRefs(cells, es, front);
      LookupLast(cells, idxs, front, j);
      var s := Elems(front);
      RefsInAdd(es, s, j);
      MultisetOfAppend(Concat(Lookup(cells, front)), cells[j], RefsIn(es, s), multiset(RefsAt(es, j)));
    }
  }

  /** The preconditions of `ConcatLookupRefs` survive dropping the last cell, which
      is not among the others. */
  lemma DropLast<I(!new), R>(cells: map<I, seq<R>>, es: seq<Entry<I, R>>, idxs: seq<I>, front: seq<I>, j: I)
    requires idxs == front + [j]
    requires Distinct(idxs)
    requires forall k :: 0 <= k < |idxs| ==> Stored(cells, es, idxs[k])
    ensures Distinct(front)
    ensures forall k :: 0 <= k < |front| ==> front[k] in cells
    ensures forall k :: 0 <= k < |front| ==> Stored(cells, es, front[k])
    ensures j !in Elems(front)
    ensures Elems(idxs) == Elems(front) + {j}
    ensures Stored(cells, es, j)
  {
    var n := |front|;
    assert forall k :: 0 <= k < n ==> front[k] == idxs[k];
    assert idxs[n] == j;
    forall a, b | 0 <= a < b < n
      ensures front[a] != front[b]
    {
      assert front[a] == idxs[a] && front[b] == idxs[b];
    }
    assert j !in front by {
      forall k | 0 <= k < n
        ensures front[k] != j
      {
        assert front[k] == idxs[k] && idxs[k] != idxs[n];
      }
    }
    forall k | 0 <= k < n
      ensures Stored(cells, es, front[k])
    {
      assert front[k] == idxs[k];
    }
    forall i
      ensures i in Elems(idxs) <==> i in Elems(front) + {j}
    {
      assert i in idxs <==> i in front || i == j;
    }
  }

  lemma LookupLast<I, R>(cells: map<I, seq<R>>, idxs: seq<I>, front: seq<I>, j: I)
    requires idxs == front + [j]
    requires forall k :: 0 <= k < |idxs| ==> idxs[k] in cells
    ensures forall k :: 0 <= k < |front| ==> front[k] in cells
    ensures Concat(Lookup(cells, idxs)) == Concat(Lookup(cells, front)) + cells[j]
  {
    assert idxs[..|idxs| - 1] == front;
    assert forall k :: 0 <= k < |front| ==> front[k] == idxs[k];
  }

  lemma MultisetOfAppend<R>(a: seq<R>, b: seq<R>, x: multiset<R>, y: multiset<R>)
    requires multiset(a) == x && multiset(b) == y
    ensures multiset(a + b) == x + y
  {
  }

  lemma {:induction false} RefsInEmpty<I, R>(es: seq<Entry<I, R>>)
    ensures RefsIn(es, {}) == multiset{}
  {
    if es != [] {
      RefsInEmpty(es[..|es| - 1]);
    }
  }

  /** The central accounting theorem: if `cells` came from appending `es` to an empty
      table, and `idxs` lists each present cell of a region exactly once, then
      flattening their buckets returns, as a multiset, precisely the references of
      the entries that landed in that region. */
  lemma CollectRegion<I(!new), R>(cells: map<I, seq<R>>, es: seq<Entry<I, R>>, idxs: seq<I>, inRegion: I -> bool)
    requires Holds(cells, es)
    requires Distinct(idxs)
    requires forall i :: i in idxs <==> i in cells && inRegion(i)
    ensures forall k :: 0 <= k < |idxs| ==> idxs[k] in cells
    ensures multiset(Concat(Lookup(cells, idxs))) == RefsWhere(es, inRegion)
  {
    assert forall k :: 0 <= k < |idxs| ==> idxs[k] in idxs;
    assert forall k :: 0 <= k < |idxs| ==> Stored(cells, es, idxs[k]);
    ConcatLookupRefs(cells, es, idxs);
    var s := Elems(idxs);
    forall k | 0 <= k < |es|
      ensures es[k].index in s <==> inRegion(es[k].index)
    {
      RefsAtContains(es, k);
    }
    RefsInWhere(es, s, inRegion);
  }

  /** A reference is counted by `RefsWhere` exactly when some entry in the region carries it. */
  lemma {:induction false} RefsWhereMembership<I, R>(es: seq<Entry<I, R>>, inRegion: I -> bool, x: R)
    ensures x in RefsWhere(es, inRegion) <==> exists k :: 0 <= k < |es| && inRegion(es[k].index) && es[k].ref == x
  {
    if es != [] {
      var n := |es| - 1;
      RefsWhereMembership(es[..n], inRegion, x);
      if exists k :: 0 <= k < n && inRegion(es[..n][k].index) && es[..n][k].ref == x {
        var k :| 0 <= k < n && inRegion(es[..n][k].index) && es[..n][k].ref == x;
        assert es[k] == es[..n][k];
      }
      if exists k :: 0 <= k < |es| && inRegion(es[k].index) && es[k].ref == x {
        var k :| 0 <= k < |es| && inRegion(es[k].index) && es[k].ref == x;
        if k < n {
          assert es[..n][k] == es[k];
        }
      }
    }
  }

  /** When every entry lies in the region, the region holds all of their references. */
  lemma {:induction false} RefsWhereAll<I, R>(es: seq<Entry<I, R>>, inRegion: I -> bool)
    requires forall k :: 0 <= k < |es| ==> inRegion(es[k].index)
    ensures RefsWhere(es, inRegion) == multiset(Refs(es))
  {
    if es != [] {
      var n := |es| - 1;
      assert forall k :: 0 <= k < n ==> es[..n][k] == es[k];
      RefsWhereAll(es[..n], inRegion);
      assert Refs(es) == Refs(es[..n]) + [es[n].ref];
    }
  }

  /** When every entry carries its own position as reference, `RefsWhere` counts a
      reference once if its entry lies in the region and not at all otherwise. */
  lemma {:induction false} RefsWhereNumbered<I>(es: seq<Entry<I, int>>, inRegion: I -> bool, x: int)
    requires forall k :: 0 <= k < |es| ==> es[k].ref == k
    ensures RefsWhere(es, inRegion)[x] == if 0 <= x < |es| && inRegion(es[x].index) then 1 else 0
  {
    if es != [] {
      var n := |es| - 1;
      var front := es[..n];
      assert forall k :: 0 <= k < n ==> front[k].ref == k by {
        forall k | 0 <= k < n ensures front[k].ref == k {
          assert front[k] == es[k];
        }
      }
      RefsWhereNumbered(front, inRegion, x);
      var rest := RefsWhere(front, inRegion);
      var tail := if inRegion(es[n].index) then multiset{es[n].ref} else multiset{};
      assert RefsWhere(es, inRegion) == rest + tail;
      assert tail[x] == if x == n && inRegion(es[n].index) then 1 else 0;
      if 0 <= x < n {
        assert front[x] == es[x];
      }
    }
  }

}
