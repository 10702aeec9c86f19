# spatial_hash in Dafny

A model of the `spatial_hash` header library, a uniform-grid spatial index. Each
point of the plane (or of space) is quantised to an integer cell (voxel) index by
flooring its coordinates scaled by the inverse cell size. The index is hashed into
a 64-bit key of an `std::unordered_map`, and every populated cell holds a bucket
of caller references. There are two kinds of bucket, in three containers:

- a vector that appends (`ContainerVector`, `HashContainerVector`);
- a priority queue of at most `limit` `(key, ref)` pairs (`ContainerHeap`). A
  newcomer enters only if the queue is not full or its key is strictly above the
  top's key. The pop then evicts the smallest `(key, ref)` pair.

On top of that table the library offers window searches:

- the populated cells within Chebyshev distance `half_size` of a centre cell;
- the populated cells of the box spanned by two corner cells;
- the same two searches given in real coordinates;
- the vector tables flatten the buckets found into one list of references.

## Layout

| file | module | models |
|---|---|---|
| `basics.dfy` | `Basics` | `int32_t`, wrap-around to `uint64_t`, narrowing to `int32_t`, truncation to `uint32_t`, `std::floor(v * inv)` |
| `cell_map.dfy` | `CellMap` | the `table_[k].Add(...)` update of a map, flattening buckets, and the accounting of insertion histories |
| `containers.dfy` | `Containers` | `ContainerVector` and `ContainerHeap` of `Containers.h` |
| `hash_containers.dfy` | `HashContainers` | `HashContainerVector` of `HashContainers.h` |
| `spatial_hash_2d.dfy` | `SpatialHash2D` | `HashIndex2D`, `SpatalHash2D`, `SpatialHashTable2D` |
| `spatial_hash_3d.dfy` | `SpatialHash3D` | `HashIndex3D`, `SpatalHash3D`, `SpatialHashTable3D` |
| `spatial_hash_2d_vector.dfy` | `SpatialHash2DVector` | `SpatialHashTable2DVector` |
| `spatial_hash_3d_vector.dfy` | `SpatialHash3DVector` | `SpatialHashTable3DVector` |
| `spatial_hash_2d_heap.dfy` | `SpatialHash2DHeap` | `SpatialHashTable2DHeap` |

The modelling choices:

- **Tables and buckets.** A table is an immutable value:
  - the cell size;
  - its inverse;
  - a `map` from index to bucket.

  The base tables are generic in the bucket type. The bucket's `Add` is passed in as a function, so one definition of `Add` serves all three containers.
- **Searches** return the list of cells found, in scan order, where the source returns pointers to their buckets. The vector tables then read the buckets of those cells.
- **Loop methods.** Each search is also written as a method with the source's nested `int32_t` counting loops, and proved equal to the recursive definition.
- **Degenerate windows.** The centre and cube searches scan nothing for a negative half size, and only the centre cell for zero (`SquareSearchDegenerate`, `CubeSearchDegenerate`).
- **Integers are unbounded.** Every place where the source's fixed width matters is written out: the `uint64_t` arithmetic of the hashes, the `int32_t` casts, and the `uint32_t` conversion of the real half size. Where the source would overflow `int32_t`, the model has a precondition.

## Model

| member | source | states |
|---|---|---|
| SpatialHash2D.Equal | include/spatial_hash/SpatialHash2D.h:24-27 | the negated "some coordinate differs" test is true exactly when the indices are equal |
| SpatialHash2D.Plus | include/spatial_hash/SpatialHash2D.h:29-32 | the sum exceeds `a` by exactly `b` on each axis, when the sums fit `int32_t` |
| SpatialHash2D.PlusLaws | include/spatial_hash/SpatialHash2D.h:29-32 | index addition is commutative and associative, with the default index as neutral element |
| Basics.Wrap64 | include/spatial_hash/SpatialHash2D.h:37-42 | the conversion to `uint64_t`: the result is below 2^64 and congruent to the input modulo 2^64, so values already in range are unchanged |
| Basics.NarrowToInt32 | test/SpatialHashTest.cpp:16-19 | the conversion of `max_range` to an `int32_t` coordinate: the result fits `int32_t`, is congruent to the input modulo 2^32, and is the input itself when that fits |
| SpatialHash2D.Hash | include/spatial_hash/SpatialHash2D.h:37-42 | after all the `uint64_t` wrap-arounds the key is exactly `(x + 2^31) + (y + 2^31)·2^32`, below 2^64 |
| SpatialHash2D.HashRoundTrip | include/spatial_hash/SpatialHash2D.h:37-42 | the key is a bijection between all `int32_t` index pairs and all 64-bit values: unhashing inverts it in both directions |
| SpatialHash2D.HashInjective | include/spatial_hash/SpatialHash2D.h:37-42 | two indices share a key exactly when they are equal |
| SpatialHash2D.ConversionTest | test/SpatialHashTest.cpp:13-20 | the origin hashes to 2^63 + 2^31; the smallest index hashes to 0; 2^31 and -2^31 narrow to that smallest index |
| SpatialHash2D.DefaultTable | include/spatial_hash/SpatialHash2D.h:59 | the default table has no cells and both sizes zero |
| SpatialHash2D.NewTable | include/spatial_hash/SpatialHash2D.h:63 | a new table has no cells, the given cell size, and an inverse whose product with it is 1 |
| SpatialHash2D.SetCellSize | include/spatial_hash/SpatialHash2D.h:67-71 | resizing leaves no cells and installs the size with its reciprocal |
| SpatialHash2D.Clear | include/spatial_hash/SpatialHash2D.h:74-76 | clearing drops every cell and keeps both sizes |
| Basics.Quantize | include/spatial_hash/SpatialHash2D.h:105-110 | `std::floor(v * inv)`: the integer `i` with `i <= v·inv < i + 1` |
| SpatialHash2D.GetCellIndex | include/spatial_hash/SpatialHash2D.h:105-110 | each coordinate of the cell is the floor of the scaled coordinate: `i <= p·inv < i + 1` |
| SpatialHash2D.GetCellIndexContains | include/spatial_hash/SpatialHash2D.h:105-110 | with a positive size, the cell's real interval `[i·s, (i+1)·s)` contains the point; with the default table every point lands in the origin cell |
| SpatialHash2D.Add | include/spatial_hash/SpatialHash2D.h:97-100 | the table gains the point's cell; that cell's bucket is the bucket `Add` applied to the old bucket, or to a default one; every other cell is unchanged |
| SpatialHash2D.GetCell | include/spatial_hash/SpatialHash2D.h:116-123 | a bucket is returned exactly for a populated cell, and it is that cell's bucket |
| SpatialHash2D.GetCellLifecycle | include/spatial_hash/SpatialHash2D.h:97-123 | after `Add`, `GetCell` sees the updated bucket at the point's cell and the old answer elsewhere; after `Clear` or `SetCellSize`, no cell is found |
| SpatialHash2D.ColumnSpec | include/spatial_hash/SpatialHash2D.h:134-140 | one run of the inner loop lists exactly the populated cells of its column range, by increasing `y` |
| SpatialHash2D.BoxSpec | include/spatial_hash/SpatialHash2D.h:133-141 | the nested loops list exactly the populated cells of the box, each once, by `x` then `y` |
| SpatialHash2D.SquareSearch | include/spatial_hash/SpatialHash2D.h:129-144 | a cell is reported exactly when it is populated and within Chebyshev distance `h` of the centre; the order is strictly by `x` then `y`, so no cell appears twice |
| SpatialHash2D.SquareSearchDegenerate | include/spatial_hash/SpatialHash2D.h:133-134 | a negative half size finds nothing; half size 0 finds the centre cell alone, if it is populated |
| SpatialHash2D.Normalize | include/spatial_hash/SpatialHash2D.h:153-158 | after the two swaps the first corner holds the smaller and the second the larger coordinate on each axis |
| SpatialHash2D.CornerSearch | include/spatial_hash/SpatialHash2D.h:150-172 | a cell is reported exactly when it is populated and its coordinates lie between the corners' coordinates, given in any order; the order is strictly by `x` then `y` |
| SpatialHash2D.CornerSearchSymmetric | include/spatial_hash/SpatialHash2D.h:153-158 | swapping the corners, or giving the other two corners of the same box, returns the identical list |
| SpatialHash2D.SquareIsCornerBox | include/spatial_hash/SpatialHash2D.h:129-172 | for `h >= 0` the centre search equals the corner search of the box from `c - (h, h)` to `c + (h, h)` |
| SpatialHash2D.ColumnLoop | include/spatial_hash/SpatialHash2D.h:134-140 | the `int32_t` counting loop over `y` produces the column |
| SpatialHash2D.SquareSearchLoop | include/spatial_hash/SpatialHash2D.h:129-144 | the two nested `int32_t` counting loops compute the centre search |
| SpatialHash2D.CornerSearchLoop | include/spatial_hash/SpatialHash2D.h:150-172 | the two swaps and the nested loops compute the corner search |
| SpatialHash3D.Equal | include/spatial_hash/SpatialHash3D.h:25-28 | the negated "some coordinate differs" test is true exactly when the indices are equal |
| SpatialHash3D.Plus | include/spatial_hash/SpatialHash3D.h:30-33 | the sum exceeds `a` by exactly `b` on each axis, when the sums fit `int32_t` |
| SpatialHash3D.PlusLaws | include/spatial_hash/SpatialHash3D.h:30-33 | index addition is commutative and associative, with the default index as neutral element |
| SpatialHash3D.Hash | include/spatial_hash/SpatialHash3D.h:36-44 | the key is below 2^64; for indices in the documented range `[-2^20, 2^20)` it is exactly the three biased coordinates in consecutive 21-bit fields, and below 2^63 |
| SpatialHash3D.HashRoundTrip | include/spatial_hash/SpatialHash3D.h:13-44 | on the documented range unhashing inverts the key; every value below 2^63 is the key of exactly one in-range voxel |
| SpatialHash3D.HashInjective | include/spatial_hash/SpatialHash3D.h:13-44 | two in-range voxels share a key exactly when they are equal |
| SpatialHash3D.HashAliasesOutOfRange | include/spatial_hash/SpatialHash3D.h:13-44 | just outside the documented range, two different voxels, `(2^20, 0, 0)` and `(-2^20, 1, 0)`, share a key, yet `operator==` still tells them apart |
| SpatialHash3D.DefaultTable | include/spatial_hash/SpatialHash3D.h:65 | the default table has no voxels and both sizes zero |
| SpatialHash3D.NewTable | include/spatial_hash/SpatialHash3D.h:69 | a new table has no voxels, the given size, and an inverse whose product with it is 1 |
| SpatialHash3D.SetVoxelSize | include/spatial_hash/SpatialHash3D.h:73-77 | resizing leaves no voxels and installs the size with its reciprocal |
| SpatialHash3D.Clear | include/spatial_hash/SpatialHash3D.h:80-82 | clearing drops every voxel and keeps both sizes |
| SpatialHash3D.GetVoxelIndex | include/spatial_hash/SpatialHash3D.h:113-119 | each coordinate of the voxel is the floor of the scaled coordinate |
| SpatialHash3D.GetVoxelIndexMonotone | include/spatial_hash/SpatialHash3D.h:113-119 | with a non-negative inverse size, a point no further along any axis gets a voxel no further along any axis |
| SpatialHash3D.Add | include/spatial_hash/SpatialHash3D.h:105-108 | the table gains the point's voxel; its bucket is the bucket `Add` applied to the old or a default bucket; every other voxel is unchanged |
| SpatialHash3D.GetVoxel | include/spatial_hash/SpatialHash3D.h:125-132 | a bucket is returned exactly for a populated voxel, and it is that voxel's bucket |
| SpatialHash3D.GetVoxelLifecycle | include/spatial_hash/SpatialHash3D.h:105-132 | after `Add`, `GetVoxel` sees the updated bucket at the point's voxel and the old answer elsewhere; after `Clear` or `SetVoxelSize`, no voxel is found |
| SpatialHash3D.LineSpec | include/spatial_hash/SpatialHash3D.h:144-150 | one run of the innermost loop lists exactly the populated voxels of its line, by increasing `z` |
| SpatialHash3D.PlaneSpec | include/spatial_hash/SpatialHash3D.h:143-151 | one run of the middle loop lists exactly the populated voxels of its slab, by `y` then `z` |
| SpatialHash3D.CubeSpec | include/spatial_hash/SpatialHash3D.h:142-152 | the three nested loops list exactly the populated voxels of the box, each once, by `x`, `y`, `z` |
| SpatialHash3D.CubeSearch | include/spatial_hash/SpatialHash3D.h:138-155 | a voxel is reported exactly when it is populated and within Chebyshev distance `h` of the centre; the order is strict, so no voxel appears twice |
| SpatialHash3D.CubeSearchDegenerate | include/spatial_hash/SpatialHash3D.h:142-144 | a negative half size finds nothing; half size 0 finds the centre voxel alone, if it is populated |
| SpatialHash3D.LineLoop | include/spatial_hash/SpatialHash3D.h:144-150 | the `int32_t` counting loop over `z` produces the line |
| SpatialHash3D.PlaneLoop | include/spatial_hash/SpatialHash3D.h:143-151 | the loop over `y` around `LineLoop` produces the slab |
| SpatialHash3D.CubeSearchLoop | include/spatial_hash/SpatialHash3D.h:138-155 | the three nested `int32_t` counting loops compute the cube search |
| CellMap.Upsert | include/spatial_hash/SpatialHash2D.h:99 | `operator[]` followed by the bucket's `Add`: the key set gains `k`, `k` holds `add` of its old or default bucket, other keys keep theirs |
| CellMap.UpsertSize | include/spatial_hash/SpatialHash2D.h:99 | an insertion grows the table by at most one cell, and not at all when the cell was present |
| CellMap.Flatten | include/spatial_hash/SpatialHash2DVector.h:32-34 | the `result.insert(result.end(), ...)` loop yields the buckets of the cells found, end to end, in order |
| CellMap.FlattenRegion | include/spatial_hash/SpatialHash2DVector.h:29-36 | if the cells found are exactly the populated cells of a region, a reference is in the flattened result exactly when some populated cell of the region holds it |
| CellMap.CollectRegion | include/spatial_hash/SpatialHash2DVector.h:29-36 | for a table built from an insertion history and distinct cells found, the flattened result is, as a multiset, exactly the references inserted in the region |
| Containers.VectorAdd | include/spatial_hash/Containers.h:18-20 | `push_back`: one longer, old contents kept as a prefix, the new reference last |
| Containers.VectorAddAllAppends | include/spatial_hash/Containers.h:18-20 | any run of `Add` calls appends the references in call order |
| Containers.Top | include/spatial_hash/Containers.h:25-30 | `top()` of the `std::greater` queue is a held pair that no held pair is below, so its key is the smallest key held |
| Containers.Pop | include/spatial_hash/Containers.h:34-36 | `pop()` removes exactly one copy of the top pair |
| Containers.Trim | include/spatial_hash/Containers.h:34-36 | the pop loop leaves `min(size, limit)` pairs taken from the queue, and no popped pair has a larger key than a kept one |
| Containers.HeapAdd | include/spatial_hash/Containers.h:29-37 | at most `limit` pairs remain. Below the limit the pair is added. At the limit it replaces the top when its key is larger, and otherwise the queue is unchanged. No dropped pair outranks a kept one by key |
| Containers.HeapKeepsLargestKeys | include/spatial_hash/Containers.h:29-37 | after any run of `Add` calls on an empty queue, it holds `min(n, limit)` of the `n` pairs offered, all of them when `n <= limit`, and none of the turned-away or evicted pairs has a larger key than a kept pair |
| HashContainers.Add | include/spatial_hash/HashContainers.h:16-18 | `push_back`: one longer, old contents kept as a prefix, the new reference last |
| HashContainers.SameAsContainerVector | include/spatial_hash/HashContainers.h:14-19 | over any run of `Add` calls the hash-container vector behaves exactly like `ContainerVector` and simply appends |
| Basics.TruncToUint32 | include/spatial_hash/SpatialHash2DVector.h:67 | the conversion of a non-negative real to `uint32_t` is its floor; a value in `(-1, 0)` becomes 0; the result is below 2^32 |
| SpatialHash2DVector.GetCellData | include/spatial_hash/SpatialHash2DVector.h:74-81 | the data of a populated cell is its bucket; an absent cell yields an empty list |
| SpatialHash2DVector.Add | include/spatial_hash/SpatialHash2D.h:97-100 | with vector buckets, the reference is appended to the data of the point's cell and every other cell's data is unchanged |
| SpatialHash2DVector.SquareSearch | include/spatial_hash/SpatialHash2DVector.h:29-36 | a reference is returned exactly when some populated cell within distance `h` of the centre holds it |
| SpatialHash2DVector.SquareSearchLoop | include/spatial_hash/SpatialHash2DVector.h:29-36 | the index scan loops followed by the flattening loop compute the centre search |
| SpatialHash2DVector.SquareSearchCorners | include/spatial_hash/SpatialHash2DVector.h:42-49 | a reference is returned exactly when some populated cell of the box between the two corners holds it |
| SpatialHash2DVector.SquareSearchCornersLoop | include/spatial_hash/SpatialHash2DVector.h:42-49 | the index scan loops followed by the flattening loop compute the corner search |
| SpatialHash2DVector.SquareSearchRealCorners | include/spatial_hash/SpatialHash2DVector.h:55-59 | a reference is returned exactly when some populated cell between the cells of the two real corners holds it |
| Basics.HalfExtent | include/spatial_hash/SpatialHash2DVector.h:66-68 | `uint32_t half_size_i = half_size * inv`, passed on as `int32_t` (the same conversion as SpatialHash3DVector.h:59-61): 0 for a ratio in (-1, 0); the floor of the ratio below 2^31; from 2^31 on, the floor minus 2^32, which is negative |
| SpatialHash2DVector.SquareSearchRealCenter | include/spatial_hash/SpatialHash2DVector.h:65-69 | a reference is returned exactly when some populated cell within the truncated extent `half·inv` of the centre's cell holds it |
| SpatialHash2DVector.GetCellDataHistory | include/spatial_hash/SpatialHash2DVector.h:74-81 | after inserting a list of points into an empty table, a cell's data is the references inserted in that cell, in insertion order, and empty when none was |
| SpatialHash2DVector.SingleCellTest | test/SpatialHashTest.cpp:22-29 | one reference added at the origin with cell size 10 is the only datum of the origin's cell |
| SpatialHash2DVector.SquareSearchExact | include/spatial_hash/SpatialHash2DVector.h:29-36 | after inserting a list of points into an empty table, the centre search returns, with multiplicity, exactly the references inserted in cells within distance `h` of the centre |
| SpatialHash2DVector.SquareSearchSoundComplete | include/spatial_hash/SpatialHash2DVector.h:29-36 | a reference is returned by the centre search exactly when it was inserted at a point whose cell is within distance `h` |
| SpatialHash2DVector.CornerSearchExact | include/spatial_hash/SpatialHash2DVector.h:42-49 | after inserting a list of points into an empty table, the corner search returns, with multiplicity, exactly the references inserted in the box, and the same list with the corners swapped |
| SpatialHash2DVector.CornerSearchSoundComplete | include/spatial_hash/SpatialHash2DVector.h:42-49 | a reference is returned by the corner search exactly when it was inserted at a point whose cell lies in the box |
| SpatialHash2DVector.RealCornersFindAll | test/SpatialHashTest.cpp:31-50 | when every inserted point lies between two real corners, the real corner search returns every inserted reference exactly once, in either corner order |
| SpatialHash2DVector.RealCenterFindsAllAligned | test/SpatialHashTest.cpp:52-72 | with the centre on a grid line of each axis and a whole `half·inv`, the as-written centre search returns every reference inserted within `half` exactly once |
| SpatialHash2DVector.CircleTest | test/SpatialHashTest.cpp:52-72 | cell size 10, centre at the origin, half size 100: every reference inserted within 100 of the origin is found, so the result has as many entries as insertions |
| SpatialHash2DVector.RealCenterMissesNearPoint | include/spatial_hash/SpatialHash2DVector.h:65-69 | as written, a point 0.5 from a centre is missed by the search of half size 0.5 (cell size 1, centre (0.75, 0.75), point (1.25, 0.75)) |
| SpatialHash2DVector.SquareSearchRealCenterCovering | include/spatial_hash/SpatialHash2DVector.h:65-69 | the corrected search, with the extent one cell wider, returns exactly what the populated cells within that extent hold |
| SpatialHash2DVector.NearCellInSquare | include/spatial_hash/SpatialHash2DVector.h:65-69 | a point within `half` of the centre on both axes lies in a cell within the widened extent of the centre's cell |
| SpatialHash2DVector.RealCenterCoveringFindsNear | include/spatial_hash/SpatialHash2DVector.h:65-69 | with the widened extent, every reference inserted within `half` of the centre on both axes is returned |
| SpatialHash2DVector.RealCenterCoveringFixesExample | include/spatial_hash/SpatialHash2DVector.h:65-69 | the corrected search does return the reference the as-written search misses |
| SpatialHash3DVector.GetVoxelData | include/spatial_hash/SpatialHash3DVector.h:28-36 | the data of a populated voxel is its bucket; an absent voxel yields an empty list |
| SpatialHash3DVector.Add | include/spatial_hash/SpatialHash3D.h:105-108 | with vector buckets, the reference is appended to the data of the point's voxel and every other voxel's data is unchanged |
| SpatialHash3DVector.CubeSearch | include/spatial_hash/SpatialHash3DVector.h:42-50 | a reference is returned exactly when some populated voxel within distance `h` of the centre holds it |
| SpatialHash3DVector.CubeSearchLoop | include/spatial_hash/SpatialHash3DVector.h:42-50 | the index scan loops followed by the flattening loop compute the cube search |
| SpatialHash3DVector.CubeSearchReal | include/spatial_hash/SpatialHash3DVector.h:56-62 | a reference is returned exactly when some populated voxel within the truncated extent `half·inv` of the centre's voxel holds it |
| SpatialHash3DVector.GetVoxelDataHistory | include/spatial_hash/SpatialHash3DVector.h:28-36 | after inserting a list of points into an empty table, a voxel's data is the references inserted in that voxel, in insertion order |
| SpatialHash3DVector.SingleVoxelTest | test/SpatialHashTest.cpp:74-81 | one reference added at the origin with voxel size 10 is the only datum of the origin's voxel |
| SpatialHash3DVector.CubeSearchExact | include/spatial_hash/SpatialHash3DVector.h:42-50 | after inserting a list of points into an empty table, the cube search returns, with multiplicity, exactly the references inserted in voxels within distance `h` |
| SpatialHash3DVector.CubeSearchSoundComplete | include/spatial_hash/SpatialHash3DVector.h:42-50 | a reference is returned exactly when it was inserted at a point whose voxel is within distance `h` |
| SpatialHash3DVector.RealCenterMissesNearPoint | include/spatial_hash/SpatialHash3DVector.h:56-62 | as written, a point 0.5 from a centre is missed by the search of half size 0.5 (voxel size 1, centre (0.75, 0.75, 0.75), point (1.25, 0.75, 0.75)) |
| SpatialHash3DVector.CubeSearchRealCovering | include/spatial_hash/SpatialHash3DVector.h:56-62 | the corrected search, with the extent one voxel wider, returns exactly what the populated voxels within that extent hold |
| SpatialHash3DVector.NearVoxelInCube | include/spatial_hash/SpatialHash3DVector.h:56-62 | a point within `half` of the centre on every axis lies in a voxel within the widened extent of the centre's voxel |
| SpatialHash3DVector.RealCenterCoveringFindsNear | include/spatial_hash/SpatialHash3DVector.h:56-62 | with the widened extent, every reference inserted within `half` of the centre on every axis is returned |
| SpatialHash3DVector.RealCenterCoveringFixesExample | include/spatial_hash/SpatialHash3DVector.h:56-62 | the corrected search does return the reference the as-written search misses |
| SpatialHash3DVector.InnerVoxelInCube | test/SpatialHashTest.cpp:144-152 | with voxel size 0.1, a point inside the unit ball lands within 15 voxels of the origin on every axis, so the cube search of half size 1.5 around the origin scans its voxel |
| SpatialHash3DVector.RadiusFilterCount | test/SpatialHashTest.cpp:155-161 | the squared-norm test on the returned references keeps every copy of a reference whose point is strictly inside the squared radius and drops every other |
| SpatialHash3DVector.RadiusSearchTest | test/SpatialHashTest.cpp:119-164 | any number of points inside the unit ball (1000 in the test) followed by points at distance 2 or more, voxel size 0.1, cube search of half size 1.5 at the origin, then the radius test: exactly the inner points' references remain, so the count equals the number of inner points |
| SpatialHash2DHeap.Add | include/spatial_hash/SpatialHash2DHeap.h:28-31 | only the point's cell changes: it is created if absent and its queue receives the bounded `Add`; the table gains at most one cell; every queue stays within `limit` |
| SpatialHash2DHeap.AddAllBounded | include/spatial_hash/SpatialHash2DHeap.h:28-31 | after any run of insertions, no queue exceeds `limit`, and the table has at most one cell per insertion |
| SpatialHash2DHeap.AddAllBuckets | include/spatial_hash/SpatialHash2DHeap.h:28-31 | after inserting into an empty table, a cell exists exactly when some pair landed in it, and its queue is the bounded queue built from those pairs in order |
| SpatialHash2DHeap.BucketKeepsLargestKeys | include/spatial_hash/SpatialHash2DHeap.h:15-31 | per cell, the queue holds `min(n, limit)` of the `n` pairs that landed there, and no pair it turned away or evicted has a larger key than one it holds |

## Left out

- Floating point: coordinates, sizes and products are real numbers, and `std::floor(v * inv)` is the exact floor of the exact product. Rounding of `float`/`double` is not modelled, nor are non-finite values.
- SpatialHash2D.NewTable: requires a non-zero cell size, where the source computes `1 / 0`. The same holds for `SetCellSize` and the 3D `NewTable` and `SetVoxelSize`, because reals have no infinity. The reciprocal is otherwise taken unchecked, so any non-zero size is accepted, negative ones included.
- SpatialHash2D.GetCellIndex: requires the floored value to fit `int32_t`, because the source's `static_cast<int32_t>` of an out-of-range floating value is undefined. The same holds for `GetVoxelIndex`.
- SpatialHash2D.SquareSearch: requires `center ± half_size` to fit `int32_t`, and the upper bounds to be below `INT32_MAX`. Otherwise the source's `int32_t` arithmetic or its `++` overflows, which is undefined. The same holds for the corner search and the 3D cube search.
- SpatialHash2D.Plus: requires the sums to fit `int32_t`; the source overflows, which is undefined behaviour.
- Hashing: the 64-bit keys are modelled and proved injective, but `std::unordered_map` itself (buckets, rehashing, iteration order) is a plain `map`. `std::pow` is taken as the exact power of two.
- Search results: the source returns pointers to buckets; the model returns the cell indices, from which the bucket is one lookup away.
- `GetTable`, `GetCellSize`, `GetVoxelSize`, `GetInvVoxelSize`: plain field reads of the table datatype.
- Containers.HeapEntry: `KeyT` and `RefType` of the priority queue are fixed to `int`, and the queue is a bag rather than a binary heap.
- Containers.HeapAdd: the source calls `insert`, which `std::priority_queue` does not have; it is modelled as `push`.
- Containers.Limit: the template argument `limit` is at least 1. With `limit == 0` the first `Add` reads `top()` of an empty queue.
- SpatialHash3DVector.GetVoxelData: the source calls `GetCell`, which the 3D base table does not declare; it is modelled with `GetVoxel`, the lookup the 3D table has.
- SpatialHash3DVector.CubeSearchReal: the source takes `half_size` as `float` whatever `DataType` is. Reals make that narrowing invisible.
- The `RandomCubeTest` calls a corner-based `CubeSearch(p1, p2)` that the 3D vector table does not declare, so that test has no counterpart here.
- The random point generators, the `Eigen` types and the remaining test scaffolding are not modelled. The tests' fixed point sets become universally quantified lists of insertions.
- Result lengths: the length of a flattened search is not stated as a sum of bucket sizes. The multiset equalities (`SquareSearchExact`, `CornerSearchExact`, `CubeSearchExact`) say more.
- There is no Euclidean-distance filter in the library. The real-space searches are stated per axis (Chebyshev distance), which implies the Euclidean case.

## Findings

| source | as written | input that shows it | evidently intended | confidence | as-written member | corrected member |
|---|---|---|---|---|---|---|
| include/spatial_hash/SpatialHash2DVector.h:65-69 | the cell half extent is `half_size * inv` truncated to `uint32_t`, with no extra cell | cell size 1, centre (0.75, 0.75), half size 0.5, a reference at (1.25, 0.75): extent 0 scans only cell (0, 0), the point is in cell (1, 0), and the result is empty | every reference within `half_size` of the centre is returned, as the real-space search promises | not executed | SpatialHash2DVector.RealCenterMissesNearPoint | SpatialHash2DVector.RealCenterCoveringFindsNear |
| include/spatial_hash/SpatialHash3DVector.h:56-62 | the voxel half extent is `half_size * inv` truncated to `uint32_t`, with no extra voxel | voxel size 1, centre (0.75, 0.75, 0.75), half size 0.5, a reference at (1.25, 0.75, 0.75): only voxel (0, 0, 0) is scanned and the result is empty | every reference within `half_size` of the centre is returned | not executed | SpatialHash3DVector.RealCenterMissesNearPoint | SpatialHash3DVector.RealCenterCoveringFindsNear |

The corrected searches, `SquareSearchRealCenterCovering` and `CubeSearchRealCovering`, widen the extent by one cell. `RealCenterFindsAllAligned` shows why the source's circle test still passes: its centre lies on a grid corner and `half·inv` is a whole number, and in that case the truncated extent is enough.
