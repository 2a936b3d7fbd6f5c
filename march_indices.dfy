/** The triangulator's output: points relative to the polygon's vertices,
    triangles over them, and the append-only triangle list. */
module Indices {
  import opened Bytes
  import opened Panics

  /** Where a mesh vertex sits: on polygon vertex `idx`, or at the midpoint of
      the edge between polygon vertices `from` and `to`. */
  datatype MarchPoint = At(idx: u8) | Between(from: u8, to: u8)

  /** Three points in order; the Rust array `[a, b, c]`. `Triangle(a, b, c)`
      is `Triangle::new(a, b, c)`. */
  datatype Triangle = Triangle(a: MarchPoint, b: MarchPoint, c: MarchPoint)
  {
    /** The corners in the order a consumer reads them. */
    function Corners(): seq<MarchPoint>
    {
      [a, b, c]
    }

    /** `Triangle::at`: a triangle over three polygon vertices. */
    static function FromVertices(a: u8, b: u8, c: u8): Triangle
    {
      Triangle(At(a), At(b), At(c))
    }
  }

  /** The next vertex round an n-gon: `(i + 1) % n`. */
  function Succ(n: u8, i: u8): u8
    requires i < n <= 8
  {
    (i + 1) % n
  }

  /** The previous vertex round an n-gon: `(i + n - 1) % n`. */
  function Pred(n: u8, i: u8): u8
    requires i < n <= 8
  {
    (i + n - 1) % n
  }

  /** A point is usable against an n-element vertex table: every index is
      below n, and a midpoint lies on an edge of the polygon. */
  predicate PointOk(n: u8, p: MarchPoint)
    requires 1 <= n <= 8
  {
    match p
    case At(i) => i < n
    case Between(i, j) => i < n && (j == Succ(n, i) || j == Pred(n, i))
  }

  predicate TriangleOk(n: u8, t: Triangle)
    requires 1 <= n <= 8
  {
    PointOk(n, t.a) && PointOk(n, t.b) && PointOk(n, t.c)
  }

  /** `MarchIndices::filled(n)`: the fan from vertex 0 over vertices 0..n-1,
      triangles `(At(0), At(i + 1), At(i + 2))` for i in `0..n - 2`. The
      `u8` subtraction `n - 2` panics when n < 2. */
  function Fan(n: u8): Result<seq<Triangle>>
  {
    if n < 2 then Panic
    else Ok(seq((n - 2) as int, i requires 0 <= i < (n - 2) as int =>
                  Triangle.FromVertices(0, i as u8 + 1, i as u8 + 2)))
  }

  /** Two triangles have the edge {p, q} in common. */
  predicate SharesEdge(s: Triangle, t: Triangle, p: MarchPoint, q: MarchPoint)
  {
    p != q && p in s.Corners() && q in s.Corners() && p in t.Corners() && q in t.Corners()
  }

  /** Some triangle of `ts` has polygon vertex v as a corner. */
  predicate Touches(ts: seq<Triangle>, v: u8)
  {
    exists t <- ts :: At(v) in t.Corners()
  }

  lemma TouchesConcat(a: seq<Triangle>, b: seq<Triangle>, v: u8)
    ensures Touches(a + b, v) <==> Touches(a, v) || Touches(b, v)
  {
    if Touches(a + b, v) {
      var t :| t in a + b && At(v) in t.Corners();
      assert t in a || t in b;
    }
    if Touches(a, v) {
      var t :| t in a && At(v) in t.Corners();
      assert t in a + b;
    }
    if Touches(b, v) {
      var t :| t in b && At(v) in t.Corners();
      assert t in a + b;
    }
  }

  /** A non-degenerate triangle over three distinct vertices of an n-gon. */
  predicate VertexTriangle(n: u8, t: Triangle)
  {
    t.a.At? && t.b.At? && t.c.At? && t.a.idx < n && t.b.idx < n && t.c.idx < n
    && t.a != t.b && t.b != t.c && t.a != t.c
  }

  /** `filled(n)` panics exactly when n < 2; otherwise it holds n - 2
      non-degenerate triangles over polygon vertices only, all with indices
      below n. */
  lemma FanIsFan(n: u8)
    ensures Fan(n).Panic? <==> n < 2
    ensures Fan(n).Ok? ==> |Fan(n).value| == n as int - 2
    ensures Fan(n).Ok? ==> forall t <- Fan(n).value :: VertexTriangle(n, t)
  {
    if n >= 2 {
      var fan := Fan(n).value;
      forall t | t in fan
        ensures VertexTriangle(n, t)
      {
        var i :| 0 <= i < |fan| && fan[i] == t;
        assert t == Triangle.FromVertices(0, i as u8 + 1, i as u8 + 2);
      }
    }
  }

  /** The triangles of `filled(n)` form a fan round vertex 0: each shares the
      diagonal from vertex 0 to vertex i + 1 with its predecessor, and together
      they touch every vertex of the polygon. */
  lemma FanCoversPolygon(n: u8)
    requires n >= 3
    ensures forall i | 0 < i < n as int - 2 ::
              SharesEdge(Fan(n).value[i - 1], Fan(n).value[i], At(0), At(i as u8 + 1))
    ensures forall v: u8 | v < n :: Touches(Fan(n).value, v)
  {
    var fan := Fan(n).value;
    forall i | 0 < i < n as int - 2
      ensures SharesEdge(fan[i - 1], fan[i], At(0), At(i as u8 + 1))
    {
      assert fan[i - 1] == Triangle.FromVertices(0, (i - 1) as u8 + 1, (i - 1) as u8 + 2);
      assert fan[i] == Triangle.FromVertices(0, i as u8 + 1, i as u8 + 2);
    }
    forall v: u8 | v < n
      ensures Touches(fan, v)
    {
      var k := if v < 2 then 0 else v as int - 2;
      assert fan[k] == Triangle.FromVertices(0, k as u8 + 1, k as u8 + 2);
      assert At(v) in fan[k].Corners();
    }
  }

  /** The triangle list `march` returns. */
  class MarchIndices {
    var indices: seq<Triangle>

    /** `MarchIndices::default()` */
    constructor Default()
      ensures Iter() == []
    {
      indices := [];
    }

    /** `MarchIndices::filled(n)`, for the sizes where it does not panic. */
    constructor Filled(n: u8)
      requires n >= 2
      ensures Fan(n) == Ok(Iter())
    {
      indices := Fan(n).value;
    }

    /** `add_triangle(a, b, c)` */
    method AddTriangle(a: MarchPoint, b: MarchPoint, c: MarchPoint)
      modifies this
      ensures Iter() == old(Iter()) + [Triangle(a, b, c)]
    {
      indices := indices + [Triangle(a, b, c)];
    }

    /** `iter()`: the triangles in the order they were added. */
    function Iter(): seq<Triangle>
      reads this
    {
      indices
    }
  }
}
