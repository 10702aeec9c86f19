/** The per-cell buckets of `Containers.h`: an unbounded vector of references and a
    bounded priority queue of `(key, reference)` pairs that keeps the largest keys. */
module Containers {
  import opened Basics

  /** `ContainerVector<RefType>::Add`: `push_back`. */
  function VectorAdd<R>(bucket: seq<R>, v: R): (r: seq<R>)
    ensures |r| == |bucket| + 1
    ensures r[..|bucket|] == bucket
    ensures r[|bucket|] == v
  {
    bucket + [v]
  }

  /** Adding the references `vs` one after another. */
  function VectorAddAll<R>(bucket: seq<R>, vs: seq<R>): seq<R>
  {
    if vs == [] then bucket else VectorAdd(VectorAddAll(bucket, vs[..|vs| - 1]), vs[|vs| - 1])
  }

  /** A vector bucket keeps every reference added to it, in the order added. */
  lemma {:induction false} VectorAddAllAppends<R>(bucket: seq<R>, vs: seq<R>)
    ensures VectorAddAll(bucket, vs) == bucket + vs
  {
    if vs != [] {
      var n := |vs| - 1;
      VectorAddAllAppends(bucket, vs[..n]);
      assert vs == vs[..n] + [vs[n]];
    }
  }

  /** The template argument `limit` of `ContainerHeap`. It must be positive: with
      `limit == 0` the first `Add` reads `top()` of an empty queue. */
  type Limit = n: nat | 1 <= n witness 1

  /** One `std::pair<KeyT, RefType>` held by the queue. */
  datatype HeapEntry = HeapEntry(key: int, ref: int)

  /** The pair order `std::greater` is built on: by key, then by reference. Since
      the queue is ordered by `std::greater`, `top()` is the smallest pair. */
  predicate Below(a: HeapEntry, b: HeapEntry) {
    a.key < b.key || (a.key == b.key && a.ref < b.ref)
  }

  /** Every pair in `dropped` has a key no larger than the key of any pair in `kept`. */
  ghost predicate KeysBelow(dropped: multiset<HeapEntry>, kept: seq<HeapEntry>) {
    forall d, x :: d in dropped && x in kept ==> d.key <= x.key
  }

  /** Position of a smallest pair. */
  function MinPosition(h: seq<HeapEntry>): (k: nat)
    requires |h| > 0
    ensures k < |h|
    ensures forall j :: 0 <= j < |h| ==> !Below(h[j], h[k])
  {
    if |h| == 1 then 0
    else
      var k := MinPosition(h[..|h| - 1]);
      if Below(h[|h| - 1], h[k]) then |h| - 1 else k
  }

  /** `top()`: the smallest pair; its key is the smallest key held. */
  function Top(h: seq<HeapEntry>): (e: HeapEntry)
    requires |h| > 0
    ensures e in h
    ensures forall x :: x in h ==> !Below(x, e)
    ensures forall x :: x in h ==> e.key <= x.key
  {
    h[MinPosition(h)]
  }

  /** `pop()`: removes one copy of the smallest pair. */
  function Pop(h: seq<HeapEntry>): (r: seq<HeapEntry>)
    requires |h| > 0
    ensures multiset(r) == multiset(h) - multiset{Top(h)}
    ensures |r| == |h| - 1
  {
    var k := MinPosition(h);
    assert h == h[..k] + [h[k]] + h[k + 1..];
    h[..k] + h[k + 1..]
  }

  /** `while (size() > limit) pop();`: shrinks to `limit` entries, and every pair it
      drops has a key no larger than any key it keeps. */
  function Trim(limit: nat, h: seq<HeapEntry>): (r: seq<HeapEntry>)
    ensures |r| == Min(|h|, limit)
    ensures multiset(r) <= multiset(h)
    ensures KeysBelow(multiset(h) - multiset(r), r)
    decreases |h|
  {
    if |h| <= limit then h
    else
      var r := Trim(limit, Pop(h));
      PopThenKeep(h, r);
      r
  }

  /** Whatever is kept after a `pop()` was in the queue before it, and the pairs dropped
      overall are the popped top plus those dropped afterwards. */
  lemma PopThenKeep(h: seq<HeapEntry>, r: seq<HeapEntry>)
    requires |h| > 0
    requires multiset(r) <= multiset(Pop(h))
    requires KeysBelow(multiset(Pop(h)) - multiset(r), r)
    ensures multiset(r) <= multiset(h)
    ensures KeysBelow(multiset(h) - multiset(r), r)
  {
    var p := Pop(h);
    forall x | x in r ensures x in h {
      assert x in multiset(r);
      assert x in multiset(p);
    }
    forall d, x | d in multiset(h) - multiset(r) && x in r
      ensures d.key <= x.key
    {
      if d != Top(h) {
        assert multiset(h)[d] == multiset(p)[d];
        assert d in multiset(p) - multiset(r);
      }
    }
  }

  /** `ContainerHeap<KeyT, RefType, limit>::Add(key, v)`: the pair enters the queue
      when the queue is not full or `key` beats the smallest key held, and the queue
      is then popped back down to `limit`. The source calls `insert`, which
      `std::priority_queue` does not have; `push` is what is meant. */
  function HeapAdd(limit: Limit, h: seq<HeapEntry>, key: int, ref: int): (r: seq<HeapEntry>)
    ensures |r| <= limit
    ensures multiset(r) <= multiset(h) + multiset{HeapEntry(key, ref)}
    ensures |h| < limit ==> multiset(r) == multiset(h) + multiset{HeapEntry(key, ref)}
    ensures |h| == limit && key <= Top(h).key ==> r == h
    ensures |h| == limit && Top(h).key < key ==>
      multiset(r) == multiset(h) - multiset{Top(h)} + multiset{HeapEntry(key, ref)}
    ensures KeysBelow(multiset(h) + multiset{HeapEntry(key, ref)} - multiset(r), r)
  {
    var e := HeapEntry(key, ref);
    if |h| < limit || Top(h).key < key then
      var r := Trim(limit, h + [e]);
      PushThenTrim(limit, h, e, r);
      r
    else
      var r := Trim(limit, h);
      RejectThenTrim(limit, h, e, r);
      r
  }

  /** The branch of `HeapAdd` that pushes the new pair. */
  lemma PushThenTrim(limit: Limit, h: seq<HeapEntry>, e: HeapEntry, r: seq<HeapEntry>)
    requires |h| < limit || Top(h).key < e.key
    requires r == Trim(limit, h + [e])
    ensures |r| <= limit
    ensures multiset(r) <= multiset(h) + multiset{e}
    ensures |h| < limit ==> multiset(r) == multiset(h) + multiset{e}
    ensures |h| == limit ==> multiset(r) == multiset(h) - multiset{Top(h)} + multiset{e}
    ensures KeysBelow(multiset(h) + multiset{e} - multiset(r), r)
  {
    var pushed := h + [e];
    assert multiset(pushed) == multiset(h) + multiset{e};
    if |h| == limit {
      var t := Top(h);
      TopAfterPush(h, e);
      assert r == Pop(pushed);
      SwapTop(multiset(h), t, e);
    }
  }

  /** A pushed pair with a key above the top leaves the top where it was. */
  lemma TopAfterPush(h: seq<HeapEntry>, e: HeapEntry)
    requires |h| > 0 && Top(h).key < e.key
    ensures Top(h + [e]) == Top(h)
  {
    var t := Top(h);
    assert t in h + [e];
    assert !Below(t, Top(h + [e]));
  }

  /** Adding `e` and then removing `t` is removing `t` and then adding `e`, when `t`
      was already there. */
  lemma SwapTop(m: multiset<HeapEntry>, t: HeapEntry, e: HeapEntry)
    requires t in m
    ensures m + multiset{e} - multiset{t} == m - multiset{t} + multiset{e}
  {
  }

  /** The branch of `HeapAdd` that turns the new pair away. */
  lemma RejectThenTrim(limit: Limit, h: seq<HeapEntry>, e: HeapEntry, r: seq<HeapEntry>)
    requires limit <= |h| && e.key <= Top(h).key
    requires r == Trim(limit, h)
    ensures |r| <= limit
    ensures multiset(r) <= multiset(h) + multiset{e}
    ensures |h| == limit ==> r == h
    ensures KeysBelow(multiset(h) + multiset{e} - multiset(r), r)
  {
    forall d, x | d in multiset(h) + multiset{e} - multiset(r) && x in r
      ensures d.key <= x.key
    {
      assert x in multiset(r);
      assert x in h;
      if d != e {
        assert d in multiset(h) - multiset(r);
      }
    }
  }

  /** Adding the pairs `items` one after another. */
  function HeapAddAll(limit: Limit, h: seq<HeapEntry>, items: seq<HeapEntry>): seq<HeapEntry>
  {
    if items == [] then h
    else
      var last := items[|items| - 1];
      HeapAdd(limit, HeapAddAll(limit, h, items[..|items| - 1]), last.key, last.ref)
  }

  /** Starting from an empty queue, after any sequence of `Add` calls the queue holds
      `min(n, limit)` of the `n` pairs added, all of them while it has never been
      full, and every pair it has rejected or evicted has a key no larger than any
      key it still holds: it keeps the `limit` largest keys. */
  lemma {:induction false} HeapKeepsLargestKeys(limit: Limit, items: seq<HeapEntry>)
    ensures |HeapAddAll(limit, [], items)| == Min(|items|, limit)
    ensures multiset(HeapAddAll(limit, [], items)) <= multiset(items)
    ensures |items| <= limit ==> multiset(HeapAddAll(limit, [], items)) == multiset(items)
    ensures KeysBelow(multiset(items) - multiset(HeapAddAll(limit, [], items)), HeapAddAll(limit, [], items))
  {
    if items != [] {
      var n := |items| - 1;
      var front, e := items[..n], items[n];
      assert items == front + [e];
      HeapKeepsLargestKeys(limit, front);
      var h := HeapAddAll(limit, [], front);
      assert HeapAddAll(limit, [], items) == HeapAdd(limit, h, e.key, e.ref);
      AddStep(limit, front, e, h);
      assert KeepsLargest(limit, items, HeapAddAll(limit, [], items));
    }
  }

  /** What `HeapKeepsLargestKeys` states of the queue `h` built from `items`. */
  ghost predicate KeepsLargest(limit: Limit, items: seq<HeapEntry>, h: seq<HeapEntry>) {
    && |h| == Min(|items|, limit)
    && multiset(h) <= multiset(items)
    && (|items| <= limit ==> multiset(h) == multiset(items))
    && KeysBelow(multiset(items) - multiset(h), h)
  }

  /** One `Add` step of `HeapKeepsLargestKeys`. */
  lemma AddStep(limit: Limit, front: seq<HeapEntry>, e: HeapEntry, h: seq<HeapEntry>)
    requires KeepsLargest(limit, front, h)
    ensures KeepsLargest(limit, front + [e], HeapAdd(limit, h, e.key, e.ref))
  {
    AddStepSize(limit, front, e, h);
    AddStepBelow(limit, front, e, h);
  }

  /** One `Add` step of `HeapKeepsLargestKeys`: size and contents. */
  lemma AddStepSize(limit: Limit, front: seq<HeapEntry>, e: HeapEntry, h: seq<HeapEntry>)
    requires |h| == Min(|front|, limit)
    requires multiset(h) <= multiset(front)
    requires |front| <= limit ==> multiset(h) == multiset(front)
    ensures |HeapAdd(limit, h, e.key, e.ref)| == Min(|front + [e]|, limit)
    ensures multiset(HeapAdd(limit, h, e.key, e.ref)) <= multiset(front + [e])
    ensures |front + [e]| <= limit ==> multiset(HeapAdd(limit, h, e.key, e.ref)) == multiset(front + [e])
  {
    var r := HeapAdd(limit, h, e.key, e.ref);
    assert multiset(front + [e]) == multiset(front) + multiset{e};
    assert multiset(r) <= multiset(h) + multiset{e};
    if |h| < limit {
      assert |r| == |h| + 1 by {
        assert |multiset(r)| == |multiset(h) + multiset{e}|;
      }
    } else if Top(h).key < e.key {
      assert |r| == |h| by {
        assert |multiset(r)| == |multiset(h) - multiset{Top(h)} + multiset{e}|;
        assert Top(h) in multiset(h);
      }
    }
  }

  /** One `Add` step of `HeapKeepsLargestKeys`: nothing dropped outranks what is kept. */
  lemma AddStepBelow(limit: Limit, front: seq<HeapEntry>, e: HeapEntry, h: seq<HeapEntry>)
    requires |h| == Min(|front|, limit)
    requires |front| <= limit ==> multiset(h) == multiset(front)
    requires KeysBelow(multiset(front) - multiset(h), h)
    ensures KeysBelow(multiset(front + [e]) - multiset(HeapAdd(limit, h, e.key, e.ref)), HeapAdd(limit, h, e.key, e.ref))
  {
    var r := HeapAdd(limit, h, e.key, e.ref);
    assert multiset(front + [e]) == multiset(front) + multiset{e};
    forall d, x | d in multiset(front + [e]) - multiset(r) && x in r
      ensures d.key <= x.key
    {
      if d in multiset(h) + multiset{e} - multiset(r) {
        assert KeysBelow(multiset(h) + multiset{e} - multiset(r), r);
      } else {
        EarlierDrop(limit, front, e, h, d, x);
      }
    }
  }

  /** A pair dropped before the last `Add` still has a key no larger than any kept. */
  lemma EarlierDrop(limit: Limit, front: seq<HeapEntry>, e: HeapEntry, h: seq<HeapEntry>, d: HeapEntry, x: HeapEntry)
    requires |h| == Min(|front|, limit)
    requires |front| <= limit ==> multiset(h) == multiset(front)
    requires KeysBelow(multiset(front) - multiset(h), h)
    requires d in multiset(front) + multiset{e} - multiset(HeapAdd(limit, h, e.key, e.ref))
    requires d !in multiset(h) + multiset{e} - multiset(HeapAdd(limit, h, e.key, e.ref))
    requires x in HeapAdd(limit, h, e.key, e.ref)
    ensures d.key <= x.key
  {
    var r := HeapAdd(limit, h, e.key, e.ref);
    assert d in multiset(front) - multiset(h);
    assert x in multiset(r);
    if x in h {
    } else {
      assert x == e;
      // `e` is held although it was not already: it was pushed onto a queue that was
      // full (something was dropped earlier) and its key beat the smallest key held.
      assert |h| == limit;
      assert Top(h).key < e.key;
      assert Top(h) in h;
    }
  }
}
