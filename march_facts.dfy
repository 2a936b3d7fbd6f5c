/** How many triangles and clusters `march` produces, stated in terms of the
    mask alone. */
module MarchFacts {
  import opened Bytes
  import opened Indices
  import opened Marching

  /** The number of elements of s that satisfy p. */
  function Count(s: seq<u8>, p: u8 -> bool): nat
  {
    if s == [] then 0 else Count(s[..|s| - 1], p) + (if p(Last(s)) then 1 else 0)
  }

  lemma {:induction false} CountConcat(a: seq<u8>, b: seq<u8>, p: u8 -> bool)
    ensures Count(a + b, p) == Count(a, p) + Count(b, p)
  {
    if b == [] {
      assert a + b == a;
    } else {
      assert (a + b)[..|a + b| - 1] == a + b[..|b| - 1];
      CountConcat(a, b[..|b| - 1], p);
    }
  }

  lemma {:induction false} CountNone(s: seq<u8>, p: u8 -> bool)
    requires forall t | 0 <= t < |s| :: !p(s[t])
    ensures Count(s, p) == 0
  {
    if s != [] {
      CountNone(s[..|s| - 1], p);
    }
  }

  lemma {:induction false} CountAll(s: seq<u8>, p: u8 -> bool)
    requires forall t | 0 <= t < |s| :: p(s[t])
    ensures Count(s, p) == |s|
  {
    if s != [] {
      CountAll(s[..|s| - 1], p);
    }
  }

  /** Counting over the traversal order is counting over 0..n. */
  lemma CountOrder(n: u8, s: u8, p: u8 -> bool)
    requires s < n <= 8
    ensures Count(Order(n, s), p) == Count(Range(0, n), p)
  {
    CountConcat(Range(s, n), Range(0, s), p);
    assert Range(0, n) == Range(0, s) + Range(s, n);
    CountConcat(Range(0, s), Range(s, n), p);
  }

  /** Vertex i is active. */
  function Active(mask: u8): u8 -> bool
  {
    i => i < 8 && BitAt(mask, i)
  }

  /** Vertex i is the first vertex of a maximal circular run of active
      vertices: it is active and its predecessor is not. */
  function RunHead(n: u8, mask: u8): u8 -> bool
    requires 1 <= n <= 8
  {
    i => i < n && BitAt(mask, i) && !BitAt(mask, Pred(n, i))
  }

  /** The number of active vertices. */
  function ActiveCount(n: u8, mask: u8): nat
  {
    Count(Range(0, n), Active(mask))
  }

  /** The number of maximal circular runs of active vertices. */
  function RunCount(n: u8, mask: u8): nat
    requires 1 <= n <= 8
  {
    Count(Range(0, n), RunHead(n, mask))
  }

  /** The positions of `order` at which the traversal opens a cluster: an
      active vertex that is first, or that follows an inactive one. */
  function ClusterStarts(mask: u8, order: seq<u8>): nat
  {
    if order == [] then 0
    else ClusterStarts(mask, order[..|order| - 1])
         + (if Active(mask)(Last(order)) && (|order| == 1 || !Active(mask)(order[|order| - 2])) then 1 else 0)
  }

  /** Along any order: one cluster per cluster start, at least one cluster
      once an active vertex was met, and 2a - 1 triangles for a active
      vertices (one cap for the first, then two triangles per active
      vertex: cap and bridge, or the two triangles of an extension). */
  lemma {:induction false} TraverseCounts(n: u8, mask: u8, order: seq<u8>)
    requires 1 <= n <= 8
    requires forall t | 0 <= t < |order| :: order[t] < n
    ensures |Traverse(n, mask, order).clusters| == ClusterStarts(mask, order)
    ensures |Traverse(n, mask, order).clusters| > 0 <==> Count(order, Active(mask)) > 0
    ensures |Traverse(n, mask, order).out| + (if Count(order, Active(mask)) > 0 then 1 else 0)
            == 2 * Count(order, Active(mask))
  {
    if order != [] {
      var prefix := order[..|order| - 1];
      TraverseCounts(n, mask, prefix);
      if |order| > 1 {
        assert Last(prefix) == order[|order| - 2];
      }
    }
  }

  /** There are never more clusters than active vertices. */
  lemma {:induction false} StartsAtMostActive(mask: u8, order: seq<u8>)
    ensures ClusterStarts(mask, order) <= Count(order, Active(mask))
  {
    if order != [] {
      StartsAtMostActive(mask, order[..|order| - 1]);
    }
  }

  /** Along an order that steps from each vertex to its successor and starts
      at an active vertex, the cluster starts are the run heads, except that
      the first vertex always opens a cluster, run head or not. */
  lemma {:induction false} StartsAlongSteps(n: u8, mask: u8, order: seq<u8>)
    requires 1 <= n <= 8 && |order| >= 1
    requires forall t | 0 <= t < |order| :: order[t] < n
    requires forall t | 1 <= t < |order| :: order[t - 1] == Pred(n, order[t])
    requires BitAt(mask, order[0])
    ensures ClusterStarts(mask, order) + (if RunHead(n, mask)(order[0]) then 1 else 0)
            == 1 + Count(order, RunHead(n, mask))
  {
    if |order| == 1 {
      assert order[..0] == [];
    } else {
      var prefix := order[..|order| - 1];
      StartsAlongSteps(n, mask, prefix);
      assert order[|order| - 2] == Pred(n, Last(order));
    }
  }

  /** The clusters `march` builds are the runs of active vertices, plus one:
      the traversal starts at the last vertex of a run, so when that run has
      two or more vertices it is visited as two clusters, its last vertex first
      and the rest at the end of the pass. */
  lemma ClustersAsWritten(n: u8, mask: u8)
    requires 2 <= n <= 8 && 0 < mask < Max(n)
    ensures |Clusters(n, mask)| == RunCount(n, mask) + (if BitAt(mask, Pred(n, StartIdx(n, mask))) then 1 else 0)
  {
    var s := StartIdx(n, mask);
    var order := Order(n, s);
    OrderAt(n, s);
    OrderSteps(n, s);
    TraverseCounts(n, mask, order);
    StartsAlongSteps(n, mask, order);
    CountOrder(n, s, RunHead(n, mask));
  }

  /** There is at least one cluster, and no more clusters than active
      vertices. */
  lemma ClustersBounded(n: u8, mask: u8)
    requires 2 <= n <= 8 && 0 < mask < Max(n)
    ensures 1 <= |Clusters(n, mask)| <= ActiveCount(n, mask)
  {
    var s := StartIdx(n, mask);
    OrderAt(n, s);
    TraverseCounts(n, mask, Order(n, s));
    StartsAtMostActive(mask, Order(n, s));
    CountOrder(n, s, Active(mask));
  }

  /** With a active vertices and k clusters, `march` emits 2a - 1 triangles
      during the traversal, one wrap-around bridge when k > 1, and
      ceil((k - 1) / 2) comb triangles. */
  lemma MarchCount(n: u8, mask: u8)
    requires 2 <= n <= 8 && 0 < mask < Max(n)
    ensures |MarchSpec(n, mask)| == 2 * ActiveCount(n, mask) - 1
              + (if |Clusters(n, mask)| > 1 then 1 else 0) + |Clusters(n, mask)| / 2
  {
    var s := StartIdx(n, mask);
    OrderAt(n, s);
    TraverseCounts(n, mask, Order(n, s));
    CountOrder(n, s, Active(mask));
  }

  /** The empty mask has no active vertex. */
  lemma {:induction false} ShrZero(k: nat)
    requires k < 8
    ensures Shr(0, k) == 0
  {
    if k > 0 {
      ShrZero(k - 1);
    }
  }

  /** The full mask has all n vertices active. */
  lemma FullMaskActive(n: u8)
    requires 1 <= n <= 8
    ensures forall i: u8 | i < n :: BitAt(Max(n), i)
  {
    forall i: u8 | i < n
      ensures BitAt(Max(n), i)
    {
      assert Pow2(8) == 256;
      ShrOnes(8, (8 - n) as nat);
      ShrOnes(n as nat, i as nat);
      assert Shr(Max(n), i as nat) as int == Pow2((n - i) as nat) - 1;
      assert Pow2((n - i) as nat) == 2 * Pow2((n - i - 1) as nat);
    }
  }

  /** A single active vertex yields exactly one triangle, its cap. */
  lemma SingleActiveVertex(n: u8, mask: u8)
    requires 2 <= n <= 8 && mask <= Max(n)
    requires ActiveCount(n, mask) == 1
    ensures |MarchSpec(n, mask)| == 1
  {
    if mask == 0 {
      forall i: u8 | i < n
        ensures !BitAt(mask, i)
      {
        ShrZero(i as nat);
      }
      CountNone(Range(0, n), Active(mask));
      assert false;
    }
    if mask == Max(n) {
      FullMaskActive(n);
      CountAll(Range(0, n), Active(mask));
      assert false;
    }
    ClustersBounded(n, mask);
    MarchCount(n, mask);
  }

  /** Triangles over cluster points only touch no polygon vertex. */
  lemma NoVertexCorners(ts: seq<Triangle>, v: u8)
    requires forall t <- ts :: t.a.Between? && t.b.Between? && t.c.Between?
    ensures !Touches(ts, v)
  {
  }

  /** Triangles whose only polygon-vertex corner is `cur`, which the first
      of them has, touch `cur` and nothing else. */
  lemma TouchesOnly(ts: seq<Triangle>, cur: u8, v: u8)
    requires |ts| > 0 && At(cur) in ts[0].Corners()
    requires forall t <- ts :: (t.a == At(cur) || t.a.Between?) && (t.b == At(cur) || t.b.Between?)
                               && (t.c == At(cur) || t.c.Between?)
    ensures Touches(ts, v) <==> v == cur
  {
    if Touches(ts, v) {
      var t :| t in ts && At(v) in t.Corners();
    }
    if v == cur {
      assert At(v) in ts[0].Corners();
    }
  }

  /** A visit adds its own vertex when it is active and no other: a cap or an
      extension touches `cur`, and every other corner it emits is a
      cluster's join or end point, an edge midpoint. */
  lemma VisitTouches(n: u8, mask: u8, st: Scan, cur: u8, v: u8)
    requires 1 <= n <= 8 && cur < n
    requires st.wasInCluster ==> |st.clusters| > 0
    requires forall c <- st.clusters :: ClusterOk(n, mask, c)
    ensures Touches(Visit(n, mask, st, cur).out, v) <==> Touches(st.out, v) || (v == cur && BitAt(mask, cur))
  {
    var r := Visit(n, mask, st, cur);
    if BitAt(mask, cur) {
      var joinPoint := Between(cur, Pred(n, cur));
      var endPoint := Between(cur, Succ(n, cur));
      var added: seq<Triangle>;
      if st.wasInCluster {
        var current := Last(st.clusters);
        assert current in st.clusters;
        added := [Triangle(joinPoint, At(cur), current.joinPoint),
                  Triangle(At(cur), endPoint, current.joinPoint)];
        assert r.out == st.out + added;
        TouchesConcat(st.out, added, v);
      } else if |st.clusters| > 0 {
        var prev := Last(st.clusters);
        assert prev in st.clusters;
        added := [Triangle(At(cur), endPoint, joinPoint), Triangle(joinPoint, prev.joinPoint, prev.endPoint)];
        assert r.out == st.out + added;
        TouchesConcat(st.out, added, v);
      } else {
        added := [Triangle(At(cur), endPoint, joinPoint)];
        assert r.out == st.out + added;
        TouchesConcat(st.out, added, v);
      }
      TouchesOnly(added, cur, v);
    }
  }

  /** The traversal touches exactly the active vertices it visits. */
  lemma {:induction false} TraverseTouches(n: u8, mask: u8, order: seq<u8>, v: u8)
    requires 1 <= n <= 8
    requires forall t | 0 <= t < |order| :: order[t] < n
    ensures Touches(Traverse(n, mask, order).out, v) <==> v in order && BitAt(mask, v)
  {
    if order != [] {
      var prefix := order[..|order| - 1];
      TraverseTouches(n, mask, prefix, v);
      TraverseKeepsInvariants(n, mask, prefix);
      VisitTouches(n, mask, Traverse(n, mask, prefix), Last(order), v);
      assert order == prefix + [Last(order)];
    }
  }

  /** For an n-gon with n >= 3, the mesh `march` returns touches polygon
      vertex v exactly when v is active: inactive vertices are only ever
      reached through edge midpoints. */
  lemma MarchTouchesActive(n: u8, mask: u8, v: u8)
    requires 3 <= n <= 8 && mask <= Max(n) && v < n
    ensures Touches(MarchSpec(n, mask), v) <==> BitAt(mask, v)
  {
    if mask == 0 {
      ShrZero(v as nat);
    } else if mask == Max(n) {
      FullMaskActive(n);
      FanCoversPolygon(n);
    } else {
      var s := StartIdx(n, mask);
      OrderAt(n, s);
      OrderVisitsEachOnce(n, s);
      var st := Traverse(n, mask, Order(n, s));
      TraverseTouches(n, mask, Order(n, s), v);
      TraverseKeepsInvariants(n, mask, Order(n, s));
      var cs := st.clusters;
      assert cs[0] in cs && Last(cs) in cs;
      var comb := Comb(cs, 0);
      forall i | 0 <= i < |comb|
        ensures comb[i].a.Between? && comb[i].b.Between? && comb[i].c.Between?
      {
        assert cs[2 * i] in cs && cs[2 * i + 1] in cs && cs[(2 * i + 2) % |cs|] in cs;
      }
      NoVertexCorners(WrapBridge(cs) + comb, v);
      TouchesConcat(st.out, WrapBridge(cs) + comb, v);
      assert MarchSpec(n, mask) == st.out + (WrapBridge(cs) + comb);
    }
  }

  /** In the six-gon with mask 0b010111 the scan stops at vertex 2. */
  lemma SixGonStart()
    ensures 0 < 0x17 < Max(6)
    ensures StartIdx(6, 0x17) == 2
  {
    MaxIsAllOnes(6);
    assert Pow2(6) == 64;
    assert BitAt(0x17, 0) && BitAt(0x17, 1) && BitAt(0x17, 2) && !BitAt(0x17, 3);
    assert !IsStart(6, 0x17, 0) && !IsStart(6, 0x17, 1) && IsStart(6, 0x17, 2);
  }

  /** The six-gon with mask 0b010111 has four active vertices in two runs. */
  lemma SixGonCounts()
    ensures ActiveCount(6, 0x17) == 4 && RunCount(6, 0x17) == 2
  {
    assert BitAt(0x17, 0) && BitAt(0x17, 1) && BitAt(0x17, 2) && !BitAt(0x17, 3)
        && BitAt(0x17, 4) && !BitAt(0x17, 5);
    assert Range(0, 6) == [0, 1, 2, 3, 4, 5];
    var active, head := Active(0x17), RunHead(6, 0x17);
    assert Pred(6, 0) == 5 && Pred(6, 4) == 3;
    assert head(0) && !head(1) && !head(2) && !head(3) && head(4) && !head(5);
    assert [0][..0] == [];
    assert Count([0], active) == 1 && Count([0], head) == 1;
    assert [0, 1][..1] == [0];
    assert Count([0, 1], active) == 2 && Count([0, 1], head) == 1;
    assert [0, 1, 2][..2] == [0, 1];
    assert Count([0, 1, 2], active) == 3 && Count([0, 1, 2], head) == 1;
    assert [0, 1, 2, 3][..3] == [0, 1, 2];
    assert Count([0, 1, 2, 3], active) == 3 && Count([0, 1, 2, 3], head) == 1;
    assert [0, 1, 2, 3, 4][..4] == [0, 1, 2, 3];
    assert Count([0, 1, 2, 3, 4], active) == 4 && Count([0, 1, 2, 3, 4], head) == 2;
    assert [0, 1, 2, 3, 4, 5][..5] == [0, 1, 2, 3, 4];
    assert Count([0, 1, 2, 3, 4, 5], active) == 4 && Count([0, 1, 2, 3, 4, 5], head) == 2;
  }

  /** The six-gon with vertices 0, 1, 2 and 4 active (mask 0b010111): the
      scan stops at vertex 2, the run 0, 1, 2 is visited as two clusters
      ({2} first, {0, 1} last), so there are three clusters {2}, {4},
      {0, 1} and nine triangles: 4 caps, 1 extension of 2, 2 bridges, the
      wrap-around bridge and 1 comb triangle. */
  lemma SixGonExample()
    ensures New(6, 0x17) == Panics.Ok(Mask(0x17))
    ensures 0 < 0x17 < Max(6)
    ensures |Clusters(6, 0x17)| == 3
    ensures |MarchSpec(6, 0x17)| == 9
  {
    assert Pow2(6) == 64;
    SixGonStart();
    SixGonCounts();
    assert BitAt(0x17, Pred(6, 2));
    ClustersAsWritten(6, 0x17);
    MarchCount(6, 0x17);
  }
}
