/** The marching-polygons triangulator: a mask of active vertices of a regular
    n-gon (the const generic `N` of `Mask<N>`) and `march`, which turns it into
    an ordered list of triangles. */
module Marching {
  import opened Bytes
  import opened Panics
  import opened Indices

  /** `Mask<N>`: the on/off state of the n vertices, bit i for vertex i. */
  datatype Mask = Mask(mask: u8)

  /** `Mask::MAX`, written as in the source: `u8::MAX >> (8 - N)`. */
  function Max(n: u8): u8
    requires 1 <= n <= 8
  {
    Shr(U8_MAX, (8 - n) as nat)
  }

  /** `Mask::MAX` is the all-ones mask of width n. */
  lemma MaxIsAllOnes(n: u8)
    requires 1 <= n <= 8
    ensures Max(n) as int == Pow2(n as nat) - 1
  {
    assert Pow2(8) == 256;
    ShrOnes(8, (8 - n) as nat);
  }

  /** `Mask::new`: the `assert!` aborts exactly when the mask does not fit in
      n bits; otherwise the mask is stored unchanged. */
  function New(n: u8, mask: u8): (r: Result<Mask>)
    requires 1 <= n <= 8
    ensures r.Panic? <==> mask as int >= Pow2(n as nat)
    ensures r.Ok? ==> r.value.mask == mask
  {
    MaxIsAllOnes(n);
    if mask <= Max(n) then Ok(Mask(mask)) else Panic
  }

  /** `bit_at(idx)`: `(mask >> idx) & 1 != 0`. */
  predicate BitAt(mask: u8, idx: u8)
    requires idx < 8
  {
    Shr(mask, idx as nat) % 2 == 1
  }

  /** The condition the start scan stops at: vertex i is active and its
      successor is not. */
  predicate IsStart(n: u8, mask: u8, i: u8)
    requires i < n <= 8
  {
    BitAt(mask, i) && !BitAt(mask, Succ(n, i))
  }

  /** `bit_at(idx)` reads bit idx of the mask: the mask divided by 2^idx is
      odd. */
  lemma BitAtIsDivision(mask: u8, idx: u8)
    requires idx < 8
    ensures BitAt(mask, idx) <==> (mask as int / Pow2(idx as nat)) % 2 == 1
  {
    ShrIsDivision(mask, idx as nat);
  }

  /** From an active vertex, with no start anywhere, activity spreads to
      every later vertex. */
  lemma {:induction false} ActiveSpreads(n: u8, mask: u8, k: u8, i: u8)
    requires 1 <= n <= 8 && k <= i < n
    requires BitAt(mask, k)
    requires forall j: u8 | j < n :: !IsStart(n, mask, j)
    ensures BitAt(mask, i)
  {
    if i > k {
      ActiveSpreads(n, mask, k, i - 1);
      assert !IsStart(n, mask, i - 1);
      assert Succ(n, i - 1) == i;
    }
  }

  /** Whenever the mask is neither empty nor full, the scan finds a start. */
  lemma StartExists(n: u8, mask: u8)
    requires 1 <= n <= 8 && 0 < mask < Max(n)
    ensures exists s: u8 :: s < n && IsStart(n, mask, s)
  {
    MaxIsAllOnes(n);
    if forall j: u8 | j < n :: !IsStart(n, mask, j) {
      SomeBitSet(mask, n as nat);
      var k: nat :| k < n as int && Shr(mask, k) % 2 == 1;
      assert BitAt(mask, k as u8);
      ActiveSpreads(n, mask, k as u8, n - 1);
      assert !IsStart(n, mask, n - 1) && Succ(n, n - 1) == 0;
      forall i: nat | i < n as int
        ensures Shr(mask, i) % 2 == 1
      {
        if i < k {
          ActiveSpreads(n, mask, 0, i as u8);
        } else {
          ActiveSpreads(n, mask, k as u8, i as u8);
        }
      }
      AllBitsSet(mask, n as nat);
      assert false;
    }
  }

  /** The first start, the index at which the scan of `march` stops. */
  ghost function StartIdx(n: u8, mask: u8): (s: u8)
    requires 1 <= n <= 8 && 0 < mask < Max(n)
    ensures s < n && IsStart(n, mask, s)
    ensures forall j: u8 | j < s :: !IsStart(n, mask, j)
  {
    StartExists(n, mask);
    var s0: u8 :| s0 < n && IsStart(n, mask, s0);
    LeastBelow(n, mask, s0)
  }

  /** The least start at or below a known one. */
  ghost function LeastBelow(n: u8, mask: u8, s0: u8): (s: u8)
    requires 1 <= n <= 8 && s0 < n && IsStart(n, mask, s0)
    ensures s <= s0 && IsStart(n, mask, s)
    ensures forall j: u8 | j < s :: !IsStart(n, mask, j)
    decreases s0
  {
    if exists j: u8 | j < s0 :: IsStart(n, mask, j) then
      var j: u8 :| j < s0 && IsStart(n, mask, j);
      LeastBelow(n, mask, j)
    else s0
  }

  /** `lo..hi` */
  function Range(lo: u8, hi: u8): (r: seq<u8>)
    requires lo <= hi
    ensures |r| == (hi - lo) as int
    ensures forall t | 0 <= t < |r| :: r[t] as int == lo as int + t
  {
    seq((hi - lo) as int, t requires 0 <= t < (hi - lo) as int => lo + t as u8)
  }

  /** The traversal order `(start_idx..N).chain(0..start_idx)`. */
  function Order(n: u8, s: u8): seq<u8>
    requires s < n
  {
    Range(s, n) + Range(0, s)
  }

  /** The t-th vertex of the traversal is start + t, wrapped round the n-gon. */
  lemma OrderAt(n: u8, s: u8)
    requires s < n <= 8
    ensures |Order(n, s)| == n as int && Order(n, s)[0] == s
    ensures forall t | 0 <= t < n as int :: Order(n, s)[t] < n
    ensures forall t | 0 <= t < n as int :: Order(n, s)[t] as int == (s as int + t) % n as int
  {
    var o := Order(n, s);
    var m := (n - s) as int;
    forall t | 0 <= t < n as int
      ensures o[t] < n && o[t] as int == (s as int + t) % n as int
    {
      if t >= m {
        assert o[t] as int == t - m;
        assert s as int + t == n as int + (t - m);
      } else {
        assert o[t] as int == s as int + t;
      }
    }
  }

  /** Each vertex of the traversal after the first is the successor of the one
      before it. */
  lemma OrderSteps(n: u8, s: u8)
    requires s < n <= 8
    ensures |Order(n, s)| == n as int
    ensures forall t | 1 <= t < n as int :: Order(n, s)[t - 1] == Pred(n, Order(n, s)[t])
  {
    var o := Order(n, s);
    var m := (n - s) as int;
    forall t | 1 <= t < n as int
      ensures o[t - 1] == Pred(n, o[t])
    {
      if t < m {
        assert o[t] as int == s as int + t && o[t - 1] as int == s as int + t - 1;
      } else if t == m {
        assert o[t] == 0 && o[t - 1] == n - 1;
      } else {
        assert o[t] as int == t - m && o[t - 1] as int == t - 1 - m;
      }
    }
  }

  /** The traversal visits every vertex of the n-gon exactly once. */
  lemma OrderVisitsEachOnce(n: u8, s: u8)
    requires s < n <= 8
    ensures |Order(n, s)| == n as int
    ensures forall i: u8 | i < n :: i in Order(n, s)
    ensures forall t, u | 0 <= t < u < n as int :: Order(n, s)[t] != Order(n, s)[u]
  {
    var o := Order(n, s);
    var m := (n - s) as int;
    forall i: u8 | i < n
      ensures i in o
    {
      if i >= s {
        assert o[(i - s) as int] == i;
      } else {
        assert o[m + i as int] == i;
      }
    }
    forall t, u | 0 <= t < u < n as int
      ensures o[t] != o[u]
    {
      if t < m && m <= u {
        assert o[t] >= s && o[u] < s;
      }
    }
  }

  /** A run of consecutive active vertices met by the traversal: the index it
      last grew to, the edge midpoint before its first vertex, and the edge
      midpoint after its last vertex (`OnesCluster`). */
  datatype Cluster = Cluster(endIdx: u8, joinPoint: MarchPoint, endPoint: MarchPoint)

  /** The traversal's mutable state: `was_in_cluster`, `clusters` and the
      triangles emitted so far. */
  datatype Scan = Scan(wasInCluster: bool, clusters: seq<Cluster>, out: seq<Triangle>)

  function Last<T>(s: seq<T>): T
    requires |s| > 0
  {
    s[|s| - 1]
  }

  /** The cluster invariants: the end index is an active vertex and the end
      point is the midpoint of the edge after it; the join point is the
      midpoint of the edge before an active vertex. */
  predicate ClusterOk(n: u8, mask: u8, c: Cluster)
    requires 1 <= n <= 8
  {
    && c.endIdx < n && BitAt(mask, c.endIdx)
    && c.endPoint == Between(c.endIdx, Succ(n, c.endIdx))
    && c.joinPoint.Between? && c.joinPoint.from < n && BitAt(mask, c.joinPoint.from)
    && c.joinPoint.to == Pred(n, c.joinPoint.from)
  }

  /** One iteration of the traversal, at vertex `cur`. An active vertex after
      an active one extends the last cluster with two triangles; an active
      vertex after an inactive one emits a cap, a bridge to the previous
      cluster if there is one, and opens a cluster; an inactive vertex only
      leaves the cluster. */
  function Visit(n: u8, mask: u8, st: Scan, cur: u8): (r: Scan)
    requires 1 <= n <= 8 && cur < n
    requires st.wasInCluster ==> |st.clusters| > 0
    ensures r.wasInCluster == BitAt(mask, cur)
    ensures |r.clusters| == |st.clusters| + (if BitAt(mask, cur) && !st.wasInCluster then 1 else 0)
    ensures |r.out| == |st.out| + (if !BitAt(mask, cur) then 0
                                   else if st.wasInCluster || |st.clusters| > 0 then 2 else 1)
    ensures r.out[..|st.out|] == st.out
    ensures BitAt(mask, cur) ==> Last(r.clusters).endIdx == cur && Last(r.clusters).endPoint == Between(cur, Succ(n, cur))
    ensures r.clusters[..|st.clusters| - (if r.wasInCluster && st.wasInCluster then 1 else 0)]
         == st.clusters[..|st.clusters| - (if r.wasInCluster && st.wasInCluster then 1 else 0)]
  {
    if BitAt(mask, cur) then
      if st.wasInCluster then
        var current := Last(st.clusters);
        Scan(true,
             st.clusters[|st.clusters| - 1 := current.(endIdx := cur, endPoint := Between(cur, Succ(n, cur)))],
             st.out + [Triangle(Between(cur, Pred(n, cur)), At(cur), current.joinPoint),
                       Triangle(At(cur), Between(cur, Succ(n, cur)), current.joinPoint)])
      else
        var joinPoint := Between(cur, Pred(n, cur));
        var endPoint := Between(cur, Succ(n, cur));
        var cap := [Triangle(At(cur), Between(cur, Succ(n, cur)), joinPoint)];
        var bridge := if |st.clusters| > 0
                      then [Triangle(joinPoint, Last(st.clusters).joinPoint, Last(st.clusters).endPoint)]
                      else [];
        Scan(true, st.clusters + [Cluster(cur, joinPoint, endPoint)], st.out + cap + bridge)
    else
      st.(wasInCluster := false)
  }

  /** A visit keeps every cluster well formed and emits only triangles that
      fit the polygon. */
  lemma VisitKeepsInvariants(n: u8, mask: u8, st: Scan, cur: u8)
    requires 1 <= n <= 8 && cur < n
    requires st.wasInCluster ==> |st.clusters| > 0
    requires forall c <- st.clusters :: ClusterOk(n, mask, c)
    requires forall tri <- st.out :: TriangleOk(n, tri)
    ensures forall c <- Visit(n, mask, st, cur).clusters :: ClusterOk(n, mask, c)
    ensures forall tri <- Visit(n, mask, st, cur).out :: TriangleOk(n, tri)
  {
    var r := Visit(n, mask, st, cur);
    if BitAt(mask, cur) {
      var joinPoint := Between(cur, Pred(n, cur));
      var endPoint := Between(cur, Succ(n, cur));
      assert PointOk(n, joinPoint) && PointOk(n, endPoint) && PointOk(n, At(cur));
      if st.wasInCluster {
        var current := Last(st.clusters);
        assert current in st.clusters;
        assert PointOk(n, current.joinPoint);
        assert r.out == st.out + [Triangle(joinPoint, At(cur), current.joinPoint),
                                  Triangle(At(cur), endPoint, current.joinPoint)];
        assert r.clusters == st.clusters[|st.clusters| - 1 := current.(endIdx := cur, endPoint := endPoint)];
        assert ClusterOk(n, mask, current.(endIdx := cur, endPoint := endPoint));
      } else if |st.clusters| > 0 {
        var prev := Last(st.clusters);
        assert prev in st.clusters;
        assert PointOk(n, prev.joinPoint) && PointOk(n, prev.endPoint);
        assert r.out == st.out + [Triangle(At(cur), endPoint, joinPoint),
                                  Triangle(joinPoint, prev.joinPoint, prev.endPoint)];
      }
    }
  }

  /** The state after visiting `order` from the initial state. It keeps what
      `clusters.last_mut().unwrap()` relies on: while in a cluster, a cluster
      exists and it ends at the vertex just visited. */
  function Traverse(n: u8, mask: u8, order: seq<u8>): (st: Scan)
    requires 1 <= n <= 8
    requires forall t | 0 <= t < |order| :: order[t] < n
    ensures st.wasInCluster <==> |order| > 0 && BitAt(mask, Last(order))
    ensures st.wasInCluster ==> |st.clusters| > 0 && Last(st.clusters).endIdx == Last(order)
    ensures |order| > 0 && BitAt(mask, order[0]) ==> |st.clusters| > 0
  {
    if order == [] then Scan(false, [], [])
    else Visit(n, mask, Traverse(n, mask, order[..|order| - 1]), Last(order))
  }

  /** Throughout the traversal every cluster satisfies the cluster invariants
      and every triangle emitted fits the polygon. */
  lemma {:induction false} TraverseKeepsInvariants(n: u8, mask: u8, order: seq<u8>)
    requires 1 <= n <= 8
    requires forall t | 0 <= t < |order| :: order[t] < n
    ensures forall c <- Traverse(n, mask, order).clusters :: ClusterOk(n, mask, c)
    ensures forall tri <- Traverse(n, mask, order).out :: TriangleOk(n, tri)
  {
    if order != [] {
      TraverseKeepsInvariants(n, mask, order[..|order| - 1]);
      VisitKeepsInvariants(n, mask, Traverse(n, mask, order[..|order| - 1]), Last(order));
    }
  }

  /** Traversing one more vertex is one more visit. */
  lemma TraverseStep(n: u8, mask: u8, order: seq<u8>, t: nat)
    requires 1 <= n <= 8 && t < |order|
    requires forall u | 0 <= u < |order| :: order[u] < n
    ensures Traverse(n, mask, order[..t]).wasInCluster ==> |Traverse(n, mask, order[..t]).clusters| > 0
    ensures Traverse(n, mask, order[..t + 1]) == Visit(n, mask, Traverse(n, mask, order[..t]), order[t])
  {
    assert order[..t + 1][..t] == order[..t];
  }

  /** The wrap-around bridge: when there are two or more clusters, the first
      cluster's join point is connected to the last cluster. */
  function WrapBridge(clusters: seq<Cluster>): (r: seq<Triangle>)
    ensures |r| == if |clusters| > 1 then 1 else 0
  {
    if |clusters| > 1 then
      [Triangle(clusters[0].joinPoint, Last(clusters).joinPoint, Last(clusters).endPoint)]
    else []
  }

  /** The comb fill from cluster `idx` on: while `idx < clusters.len() - 1`,
      the triangle over the join points of clusters idx, idx + 1 and
      (idx + 2) mod k, then idx + 2. With k clusters it emits
      ceil((k - 1 - idx) / 2) triangles. */
  function Comb(clusters: seq<Cluster>, idx: nat): (r: seq<Triangle>)
    requires 1 <= |clusters| && idx <= |clusters|
    ensures |r| == (|clusters| - idx) / 2
    ensures forall i | 0 <= i < |r| ::
              r[i] == Triangle(clusters[idx + 2 * i].joinPoint, clusters[idx + 2 * i + 1].joinPoint,
                               clusters[(idx + 2 * i + 2) % |clusters|].joinPoint)
    decreases |clusters| - idx
  {
    if idx < |clusters| - 1 then
      [Triangle(clusters[idx].joinPoint, clusters[idx + 1].joinPoint,
                clusters[(idx + 2) % |clusters|].joinPoint)]
      + Comb(clusters, idx + 2)
    else []
  }

  /** The clusters the traversal of a mask that is neither empty nor full
      builds. */
  ghost function Clusters(n: u8, mask: u8): (cs: seq<Cluster>)
    requires 1 <= n <= 8 && 0 < mask < Max(n)
    ensures |cs| > 0
  {
    var s := StartIdx(n, mask);
    OrderAt(n, s);
    Traverse(n, mask, Order(n, s)).clusters
  }

  /** What `march` returns, as a function of n and the mask. */
  ghost function MarchSpec(n: u8, mask: u8): seq<Triangle>
    requires 2 <= n <= 8 && mask <= Max(n)
  {
    if mask == 0 then []
    else if mask == Max(n) then Fan(n).value
    else
      var s := StartIdx(n, mask);
      OrderAt(n, s);
      var st := Traverse(n, mask, Order(n, s));
      st.out + WrapBridge(st.clusters) + Comb(st.clusters, 0)
  }

  /** Every point `march` emits can be looked up in an n-element vertex
      table, and every edge midpoint lies between two neighbouring vertices. */
  lemma MarchWellFormed(n: u8, mask: u8)
    requires 2 <= n <= 8 && mask <= Max(n)
    ensures forall tri <- MarchSpec(n, mask) :: TriangleOk(n, tri)
  {
    if mask == Max(n) {
      FanIsFan(n);
    } else if mask != 0 {
      var s := StartIdx(n, mask);
      OrderAt(n, s);
      var st := Traverse(n, mask, Order(n, s));
      TraverseKeepsInvariants(n, mask, Order(n, s));
      var cs := st.clusters;
      assert forall c <- cs :: PointOk(n, c.joinPoint) && PointOk(n, c.endPoint);
      assert Last(cs) in cs && cs[0] in cs;
      var comb := Comb(cs, 0);
      forall i | 0 <= i < |comb|
        ensures TriangleOk(n, comb[i])
      {
        assert cs[2 * i] in cs && cs[2 * i + 1] in cs && cs[(2 * i + 2) % |cs|] in cs;
      }
    }
  }

  /** Step 1 of `march`: the scan for a start, an active vertex whose
      successor is inactive. It stops at the first one, and there always is
      one when the mask is neither empty nor full. */
  method FindStart(n: u8, mask: u8) returns (startIdx: u8)
    requires 2 <= n <= 8 && 0 < mask < Max(n)
    ensures startIdx < n && BitAt(mask, startIdx) && !BitAt(mask, Succ(n, startIdx))
    ensures forall j: u8 | j < startIdx :: !IsStart(n, mask, j)
  {
    StartExists(n, mask);
    startIdx := 0;
    while startIdx < n
      invariant startIdx <= n
      invariant forall j: u8 | j < startIdx :: !IsStart(n, mask, j)
    {
      if BitAt(mask, startIdx) && !BitAt(mask, (startIdx + 1) % n) {
        break;
      }
      startIdx := startIdx + 1;
    }
    assert startIdx < n;
  }

  /** Step 4 of `march`: the comb over the clusters' join points. */
  method FillComb(res: MarchIndices, clusters: seq<Cluster>)
    requires |clusters| >= 1
    modifies res
    ensures res.Iter() == old(res.Iter()) + Comb(clusters, 0)
  {
    var idx := 0;
    while idx < |clusters| - 1
      invariant idx <= |clusters|
      invariant res.Iter() + Comb(clusters, idx) == old(res.Iter()) + Comb(clusters, 0)
    {
      var c1 := clusters[idx];
      var c2 := clusters[idx + 1];
      var c3 := clusters[(idx + 2) % |clusters|];
      res.AddTriangle(c1.joinPoint, c2.joinPoint, c3.joinPoint);
      idx := idx + 2;
    }
  }

  /** One iteration of the traversal loop of `march`, at vertex `curIdx`. */
  method VisitStep(n: u8, mask: u8, res: MarchIndices, wasInCluster: bool, clusters: seq<Cluster>, curIdx: u8)
    returns (wasInCluster': bool, clusters': seq<Cluster>)
    requires 1 <= n <= 8 && curIdx < n
    requires wasInCluster ==> |clusters| > 0
    modifies res
    ensures Scan(wasInCluster', clusters', res.Iter())
         == Visit(n, mask, Scan(wasInCluster, clusters, old(res.Iter())), curIdx)
  {
    clusters' := clusters;
    if BitAt(mask, curIdx) {
      if wasInCluster {
        // `clusters.last_mut().unwrap()` does not fail.
        var current := clusters[|clusters| - 1];
        res.AddTriangle(Between(curIdx, Pred(n, curIdx)), At(curIdx), current.joinPoint);
        res.AddTriangle(At(curIdx), Between(curIdx, Succ(n, curIdx)), current.joinPoint);
        clusters' := clusters[|clusters| - 1 := current.(endIdx := curIdx, endPoint := Between(curIdx, Succ(n, curIdx)))];
      } else {
        var joinPoint := Between(curIdx, Pred(n, curIdx));
        var endPoint := Between(curIdx, Succ(n, curIdx));
        res.AddTriangle(At(curIdx), Between(curIdx, Succ(n, curIdx)), joinPoint);
        if |clusters| > 0 {
          var prevCluster := clusters[|clusters| - 1];
          res.AddTriangle(joinPoint, prevCluster.joinPoint, prevCluster.endPoint);
        }
        clusters' := clusters + [Cluster(curIdx, joinPoint, endPoint)];
      }
      wasInCluster' := true;
    } else {
      wasInCluster' := false;
    }
  }

  /** Step 2 of `march`: one pass over every vertex from the start, building
      clusters and emitting their triangles into `res`. Along the way it checks
      the source's debug assertions: an extended cluster ends just before the
      current vertex, and an inactive vertex is never met before a cluster. */
  method BuildClusters(n: u8, mask: u8, startIdx: u8, res: MarchIndices) returns (clusters: seq<Cluster>)
    requires 2 <= n <= 8 && startIdx < n && BitAt(mask, startIdx)
    requires res.Iter() == []
    modifies res
    ensures Traverse(n, mask, Order(n, startIdx)) == Scan(BitAt(mask, Pred(n, startIdx)), clusters, res.Iter())
  {
    var wasInCluster := false;
    clusters := [];
    var order := Range(startIdx, n) + Range(0, startIdx);
    OrderAt(n, startIdx);
    OrderSteps(n, startIdx);
    for t := 0 to |order|
      invariant Scan(wasInCluster, clusters, res.Iter()) == Traverse(n, mask, order[..t])
    {
      var curIdx := order[t];
      TraverseStep(n, mask, order, t);
      if BitAt(mask, curIdx) && wasInCluster {
        assert clusters[|clusters| - 1].endIdx == Pred(n, curIdx);
      }
      if !BitAt(mask, curIdx) {
        assert |clusters| > 0;
      }
      wasInCluster, clusters := VisitStep(n, mask, res, wasInCluster, clusters, curIdx);
    }
    assert order[..|order|] == order;
    assert Last(order) == Pred(n, startIdx) by {
      assert order[n - 1] as int == (startIdx as int + n as int - 1) % n as int;
    }
  }

  /** `Mask::march`. The mask is one `Mask::new` accepted. */
  method March(n: u8, m: Mask) returns (res: MarchIndices)
    requires 2 <= n <= 8 && m.mask <= Max(n)
    ensures res.Iter() == MarchSpec(n, m.mask)
    ensures m.mask == 0 ==> res.Iter() == []
    ensures m.mask == Max(n) ==> Fan(n) == Ok(res.Iter())
    ensures fresh(res)
    ensures forall tri <- res.Iter() :: TriangleOk(n, tri)
  {
    MaxIsAllOnes(n);
    MarchWellFormed(n, m.mask);
    if m.mask == 0 {
      res := new MarchIndices.Default();
      return;
    }
    if m.mask == Max(n) {
      res := new MarchIndices.Filled(n);
      return;
    }
    res := new MarchIndices.Default();

    // Step 1: where the traversal starts.
    var startIdx := FindStart(n, m.mask);
    assert startIdx == StartIdx(n, m.mask) by {
      ghost var least := StartIdx(n, m.mask);
      assert IsStart(n, m.mask, startIdx) && IsStart(n, m.mask, least);
    }

    // Step 2: one pass over every vertex, building clusters.
    var clusters := BuildClusters(n, m.mask, startIdx, res);

    // Step 3: close the ring between the last cluster and the first.
    if |clusters| > 1 {
      res.AddTriangle(clusters[0].joinPoint, clusters[|clusters| - 1].joinPoint,
                      clusters[|clusters| - 1].endPoint);
    }

    // Step 4: `clusters.len() - 1` cannot underflow.
    assert |clusters| >= 1;
    FillComb(res, clusters);
  }
}
