# Marching polygons in Dafny

This project models the "marching polygons" triangulator. It is the marching-squares
idea generalised from square cells to a regular n-gon with n ≤ 8. A `Mask<N>` holds
one bit per polygon vertex, and a set bit marks an *active* vertex. `Mask::march`
turns the mask into an ordered list of triangles. Each triangle corner is a
`MarchPoint`: either `At(i)`, polygon vertex i, or `Between(i, j)`, the midpoint of
the edge from vertex i to vertex j.

Modules, one per concern:

- `Panics` (`panics.dfy`) is `Result<T> = Ok(value) | Panic`. It stands for a Rust
  `assert!` or an arithmetic overflow that aborts.
- `Bytes` (`bytes.dfy`) defines `u8` as a newtype over 0..255. Every `u8`
  operation is therefore checked for overflow, as in a debug build. It also
  defines `>>` as repeated halving, and the bit lemmas the scan needs.
- `Indices` (`march_indices.dfy`) models `src/march_indices.rs`:
  - the value types `MarchPoint` and `Triangle`;
  - `Triangle::at` as `Triangle.FromVertices`;
  - the fan that `MarchIndices::filled` builds, as `Fan`;
  - the `MarchIndices` class, whose `indices` field `add_triangle` appends to.
- `Marching` (`mask.dfy`) models `src/lib.rs`:
  - `Mask::MAX`, `Mask::new` and `bit_at`;
  - `march` as the method `March`. Its loops are split into the methods
    `FindStart`, `BuildClusters`, `VisitStep` and `FillComb`, which mutate the
    output object exactly as the source does.
  - Each loop is proved against a ghost specification. `Visit` is one traversal
    step, `Traverse` folds `Visit` over the visiting order, and `WrapBridge`,
    `Comb` and `MarchSpec` describe what `march` returns, as a function of n and
    the mask.
- `MarchFacts` (`march_facts.dfy`) states, in terms of the mask alone:
  - how many clusters and triangles `march` produces;
  - which polygon vertices the mesh touches;
  - a worked six-gon example.

The const generic `N` is the parameter `n`. `Mask::new` takes `1 <= n <= 8` and
`march` takes `2 <= n <= 8`.

The model follows the code as written:

- The start index is an active vertex whose *successor* is inactive
  (src/lib.rs:34). The traversal runs upward from it (src/lib.rs:53).
- So a run of two or more active vertices that contains the start is visited as
  two clusters. The start vertex comes first, and the rest of the run comes at
  the end of the pass (`ClustersAsWritten`).
- For n = 6 and mask `0b010111` this gives three clusters, {2}, {4} and {0, 1},
  and nine triangles (`SixGonExample`).
- The comb loop emits ⌈(k − 1)/2⌉ triangles for k clusters (`Comb`, `MarchCount`).
  For k = 2 this is one degenerate triangle `(join0, join1, join0)`.
- The comment at src/lib.rs:129 says the comb needs "num_clusters - 2"
  triangles. The loop below it emits ⌈(k − 1)/2⌉, which equals k − 2 only for
  k = 3 and k = 4. For k = 1 it emits none, and for k = 2 one degenerate
  triangle. The model follows the loop.
- The output is not bounded by one triangle per polygon vertex, and a mask with
  two runs does not always give two clusters: `SixGonExample` has nine
  triangles and three clusters for n = 6.

## Model

| member | source | states |
|---|---|---|
| Bytes.Shr | src/lib.rs:145 | `x >> k` on a `u8`, as k halvings rounding down; defined only for k < 8, where Rust's shift does not overflow |
| Bytes.ShrIsDivision | src/lib.rs:145 | `x >> k` is x divided by 2^k, rounding down |
| Marching.Max | src/lib.rs:11 | `Mask::MAX`, defined as written, `u8::MAX >> (8 - N)`; `MaxIsAllOnes` gives its value |
| Marching.BitAt | src/lib.rs:144-146 | `bit_at(idx)`: bit 0 of `mask >> idx`; `BitAtIsDivision` gives the independent reading |
| Marching.BitAtIsDivision | src/lib.rs:144-146 | `bit_at(idx)` holds iff mask / 2^idx is odd |
| Marching.Order | src/lib.rs:53 | the visiting order `(start..N).chain(0..start)`; `OrderAt`, `OrderSteps` and `OrderVisitsEachOnce` state its shape |
| Marching.MarchSpec | src/lib.rs:18-142 | what `march` returns: nothing for mask 0, the fan for `MAX`, otherwise the traversal's triangles, then the wrap bridge, then the comb; `March` is proved equal to it and the `MarchFacts` lemmas count and locate its triangles |
| Indices.Fan | src/march_indices.rs:7-9 | `filled(n)`: `Panic` when `n - 2` underflows, otherwise the triangles `Triangle::at(0, i + 1, i + 2)` for i in 0..n−2; `FanIsFan` and `FanCoversPolygon` state what they form |
| Indices.Triangle.FromVertices | src/march_indices.rs:44-46 | `Triangle::at(a, b, c)`: the triangle with corners `At(a)`, `At(b)`, `At(c)` in that order |
| Indices.MarchIndices.Iter | src/march_indices.rs:15-17 | `iter()`: the stored triangles in insertion order, the order `Default`, `Filled` and `AddTriangle` state |
| Marching.MaxIsAllOnes | src/lib.rs:11 | `u8::MAX >> (8 - N)` is the all-ones mask of width N, 2^N − 1 |
| Bytes.ShrOnes | src/lib.rs:11 | shifting the all-ones mask of width m right by k leaves the all-ones mask of width m − k |
| Marching.New | src/lib.rs:13-16 | `Mask::new` panics exactly when the mask is at least 2^N; otherwise it stores the mask unchanged |
| Marching.StartExists | src/lib.rs:31-41 | when the mask is neither empty nor full, some vertex is active with an inactive successor, so `debug_assert!(start_idx < N)` holds |
| Marching.StartIdx | src/lib.rs:31-41 | the start is the least vertex that is active with an inactive successor |
| Marching.FindStart | src/lib.rs:31-41 | the `while` scan stops below N, at an active vertex with an inactive successor, and no earlier vertex qualifies |
| Marching.OrderAt | src/lib.rs:53 | the chained range `start..N, 0..start` has N elements, starts at the start and its t-th element is (start + t) mod N |
| Marching.OrderSteps | src/lib.rs:53 | each visited vertex is the predecessor, mod N, of the next one |
| Marching.OrderVisitsEachOnce | src/lib.rs:53 | the traversal visits each of 0..N−1 exactly once |
| Marching.Visit | src/lib.rs:54-112 | one iteration: `was_in_cluster` becomes the vertex's bit; a cluster is opened exactly on an active vertex after an inactive one; 1 cap, plus 1 bridge iff a cluster exists, on opening; 2 triangles on an extension; none on an inactive vertex; earlier output and earlier clusters are unchanged; the last cluster then ends at the vertex with `end_point = Between(cur, cur+1)` |
| Marching.VisitKeepsInvariants | src/lib.rs:54-112 | one iteration keeps every cluster well formed and emits only points that index an N-vertex table, with midpoints on polygon edges |
| Marching.Traverse | src/lib.rs:50-113 | after any prefix of the traversal, `was_in_cluster` holds iff the last vertex was active; then a cluster exists and ends at that vertex, so `clusters.last_mut().unwrap()` cannot fail |
| Marching.TraverseKeepsInvariants | src/lib.rs:57-104 | throughout the traversal every cluster's end index is active with `end_point = Between(end_idx, end_idx+1)`, every join point lies before an active vertex, and every emitted point is in range |
| Marching.TraverseStep | src/lib.rs:53-113 | traversing one more vertex is one more iteration |
| Marching.VisitStep | src/lib.rs:54-112 | the loop body, mutating `res` through `add_triangle` and the cluster list through `last_mut`/`push`, performs exactly one `Visit` |
| Marching.BuildClusters | src/lib.rs:50-113 | the `for` loop produces the traversal's clusters and triangles, ends with `was_in_cluster` equal to the bit of the start's predecessor, and meets both `debug_assert`s (an extended cluster ends at cur − 1; no inactive vertex is met before a cluster) |
| Marching.WrapBridge | src/lib.rs:115-127 | exactly one wrap-around bridge iff there are two or more clusters |
| Marching.Comb | src/lib.rs:129-139 | the comb emits ⌈(k − 1)/2⌉ triangles and the i-th is over the join points of clusters 2i, 2i+1 and (2i+2) mod k |
| Marching.FillComb | src/lib.rs:129-139 | the `idx += 2` loop appends exactly the comb to `res` |
| Marching.Clusters | src/lib.rs:50-113 | a mask that is neither empty nor full yields at least one cluster, so `clusters.len() - 1` cannot underflow |
| Marching.March | src/lib.rs:18-142 | `march` returns a new `MarchIndices` (not aliasing any existing object) holding `MarchSpec`: nothing for mask 0, exactly `filled(N)` for the full mask, and every point in range |
| Marching.MarchWellFormed | src/lib.rs:54-139 | every `At(i)` that `march` emits has i < N, and every `Between(i, j)` has i, j < N with j = i ± 1 mod N |
| MarchFacts.TraverseCounts | src/lib.rs:54-112 | along any visiting order, clusters equal the cluster starts, and triangles are 2a − 1 for a > 0 active vertices |
| MarchFacts.StartsAtMostActive | src/lib.rs:54-105 | never more clusters than active vertices |
| MarchFacts.StartsAlongSteps | src/lib.rs:53-105 | along a predecessor-stepping order from an active vertex, the cluster starts are the run heads plus the first vertex when that is not a run head |
| MarchFacts.ClustersAsWritten | src/lib.rs:31-113 | the number of clusters is the number of circular runs of active vertices, plus one when the start's predecessor is active |
| MarchFacts.ClustersBounded | src/lib.rs:50-113 | 1 ≤ k ≤ number of active vertices |
| MarchFacts.MarchCount | src/lib.rs:54-139 | with a active vertices and k clusters, `march` emits 2a − 1 + (k > 1 ? 1 : 0) + ⌊k/2⌋ triangles |
| MarchFacts.SingleActiveVertex | src/lib.rs:54-139 | a single active vertex yields exactly one triangle |
| MarchFacts.ShrZero | src/lib.rs:144-146 | no bit of the empty mask is set |
| MarchFacts.FullMaskActive | src/lib.rs:144-146 | every bit below N of `MAX` is set |
| MarchFacts.VisitTouches | src/lib.rs:54-105 | an iteration adds polygon vertex v as a corner iff v is the current vertex and it is active |
| MarchFacts.TraverseTouches | src/lib.rs:53-113 | the traversal's triangles touch exactly the active vertices it visits |
| MarchFacts.MarchTouchesActive | src/lib.rs:18-139 | for N ≥ 3, the mesh has `At(v)` as a corner iff vertex v is active; inactive vertices are reached only through edge midpoints |
| MarchFacts.SixGonStart | src/lib.rs:31-41 | for N = 6 and mask `0b010111` the scan stops at vertex 2 |
| MarchFacts.SixGonCounts | src/lib.rs:144-146 | mask `0b010111` over six vertices has four active vertices in two runs |
| MarchFacts.SixGonExample | src/lib.rs:13-139 | `Mask::<6>::new(0b010111)` succeeds, gives three clusters and nine triangles |
| Indices.FanIsFan | src/march_indices.rs:7-9 | `filled(n)` panics exactly when n < 2; otherwise it has n − 2 triangles, each over three distinct polygon vertices below n |
| Indices.FanCoversPolygon | src/march_indices.rs:7-9 | consecutive fan triangles share the diagonal from vertex 0 to vertex i + 1, and every vertex is a corner of some triangle |
| Indices.TouchesConcat | src/march_indices.rs:11-13 | appending triangles touches exactly the vertices touched before or by the appended ones |
| Indices.MarchIndices.Default | src/march_indices.rs:1-4 | `MarchIndices::default()` holds no triangles |
| Indices.MarchIndices.Filled | src/march_indices.rs:7-9 | `filled(n)` holds exactly the fan |
| Indices.MarchIndices.AddTriangle | src/march_indices.rs:11-13 | appends exactly `Triangle::new(a, b, c)`, corners in order, at the end; earlier triangles are unchanged |

## Left out

- `MarchPoint::map` and `Triangle::map` (src/march_indices.rs:36-42, 65-73) do
  `f32` midpoint arithmetic. In their place, `MarchWellFormed` proves that every
  index is in range for an n-element vertex table.
- The `Debug` implementations (src/lib.rs:149-153, src/march_indices.rs:20-24,
  49-53) only format output.
- src/point.rs is not part of this model. It is not compiled, because src/lib.rs
  declares only `mod march_indices`.
- src/main.rs and examples/gui.rs are not part of this model. They are a demo
  print and a GUI with floating-point geometry.
- `iter` returns a borrowing iterator. It is modelled as the function `Iter`, the
  sequence of triangles in insertion order.
- Marching.March: N = 1 is not modelled, because a one-vertex polygon has no
  edges. There, `MAX` is 1 and `filled(1)` underflows, so the full mask panics.
- Marching.New: N = 0 and N > 8 are excluded. For those, `8 - N` or the mask
  width makes no sense and the source does not compile them.
- Indices.MarchIndices.Filled: the constructor requires n ≥ 2. The panic for
  n < 2 is modelled by `Fan`, which returns `Panic`, and `FanIsFan` proves when.
- Marching.MarchWellFormed: range checks only. Area, coverage of the active
  region and absence of overlap are geometric claims over floating point, which
  the code does not establish.
- The capacity hint `Vec::with_capacity(N / 2)` has no observable effect and is
  not modelled.
- `Mask::new` is a `const fn`, so its `assert!` can abort at compile time. It is
  modelled as a function returning `Result`.
