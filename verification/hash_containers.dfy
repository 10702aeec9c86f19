/** `HashContainerVector` of `HashContainers.h`: a second, unbounded vector bucket. */
module HashContainers {
  import Containers

  /** `HashContainerVector<RefType>::Add`: `push_back`. */
  function Add<R>(bucket: seq<R>, v: R): (r: seq<R>)
    ensures |r| == |bucket| + 1
    ensures r[..|bucket|] == bucket
    ensures r[|bucket|] == v
  {
    bucket + [v]
  }

  /** Adding the references `vs` one after another. */
  function AddAll<R>(bucket: seq<R>, vs: seq<R>): seq<R>
  {
    if vs == [] then bucket else Add(AddAll(bucket, vs[..|vs| - 1]), vs[|vs| - 1])
  }

  /** The hash-container vector bucket behaves exactly like the vector bucket of
      `Containers.h` over any run of `Add` calls: no bound, no eviction, every
      reference lands at the end in the order added. */
  lemma {:induction false} SameAsContainerVector<R>(bucket: seq<R>, vs: seq<R>)
    ensures AddAll(bucket, vs) == Containers.VectorAddAll(bucket, vs)
    ensures AddAll(bucket, vs) == bucket + vs
  {
    Containers.VectorAddAllAppends(bucket, vs);
    if vs != [] {
      var n := |vs| - 1;
      SameAsContainerVector(bucket, vs[..n]);
      assert vs == vs[..n] + [vs[n]];
    }
  }
}
