/**
 The triangle fan that `OnPopulateMesh` emits: with `n` perimeter vertices in
 slots `0 .. n-1` of the vertex buffer (slot `n` is the centroid), triangle
 `i` is `(0, i+1, i+2)` for every `i < n - 2`.
 */
module Fan {

  /** One `AddTriangle(a, b, c)` call: three indices into the vertex buffer. */
  datatype Tri = Tri(a: int, b: int, c: int)

  /** The three indices name three different vertices. */
  predicate Distinct(t: Tri) {
    t.a != t.b && t.b != t.c && t.a != t.c
  }

  /** Every index of `t` names a perimeter vertex of an `n`-gon. */
  predicate OnPerimeter(t: Tri, n: int) {
    0 <= t.a < n && 0 <= t.b < n && 0 <= t.c < n
  }

  /** `t` has `u`--`v` as one of its three edges. */
  predicate HasEdge(t: Tri, u: int, v: int) {
    u != v && (u == t.a || u == t.b || u == t.c) && (v == t.a || v == t.b || v == t.c)
  }

  /** The triangles emitted for `verts` perimeter vertices. */
  function FanTriangles(verts: int): (r: seq<Tri>)
    ensures |r| == if verts >= 2 then verts - 2 else 0
    ensures forall i :: 0 <= i < |r| ==> Distinct(r[i]) && OnPerimeter(r[i], verts)
  {
    seq(if verts >= 2 then verts - 2 else 0, i => Tri(0, i + 1, i + 2))
  }

  /** The loop of `OnPopulateMesh` that calls `AddTriangle(0, i + 1, i + 2)`. */
  method EmitTriangles(verts: int) returns (tris: seq<Tri>)
    ensures tris == FanTriangles(verts)
    ensures forall i :: 0 <= i < |tris| ==> tris[i] == Tri(0, i + 1, i + 2)
  {
    tris := [];
    var i := 0;
    while i < verts - 2
      invariant 0 <= i && (verts < 2 ==> i == 0) && (verts >= 2 ==> i <= verts - 2)
      invariant |tris| == i
      invariant forall j :: 0 <= j < i ==> tris[j] == Tri(0, j + 1, j + 2)
    {
      tris := tris + [Tri(0, i + 1, i + 2)];
      i := i + 1;
    }
  }

  /** No emitted triangle uses the centroid slot `n`, and every index lies
      inside the `n + 1`-entry vertex buffer. */
  lemma CentroidUnused(n: int, t: Tri)
    requires t in FanTriangles(n)
    ensures 0 <= t.a <= n && 0 <= t.b <= n && 0 <= t.c <= n
    ensures t.a != n && t.b != n && t.c != n
  {
    var r := FanTriangles(n);
    var i :| 0 <= i < |r| && r[i] == t;
    assert OnPerimeter(r[i], n);
  }

  /** Consecutive triangles share the edge from vertex 0 to vertex `i + 2`. */
  lemma SharedEdge(n: int, i: int)
    requires 0 <= i && i + 1 < |FanTriangles(n)|
    ensures HasEdge(FanTriangles(n)[i], 0, i + 2)
    ensures HasEdge(FanTriangles(n)[i + 1], 0, i + 2)
  {
  }

  /** No triangle is emitted twice. */
  lemma NoRepeatedTriangle(n: int, i: int, j: int)
    requires 0 <= i < |FanTriangles(n)| && 0 <= j < |FanTriangles(n)| && i != j
    ensures FanTriangles(n)[i] != FanTriangles(n)[j]
  {
  }

  /** For a proper polygon (`n >= 3`) every boundary edge `v -- (v+1) mod n`
      belongs to some triangle of the fan, so the fan reaches all of the
      polygon's perimeter. */
  lemma BoundaryCovered(n: int, v: int)
    requires n >= 3 && 0 <= v < n
    ensures exists i :: 0 <= i < |FanTriangles(n)| && HasEdge(FanTriangles(n)[i], v, (v + 1) % n)
  {
    var r := FanTriangles(n);
    if v == n - 1 {
      assert (v + 1) % n == 0;
      assert HasEdge(r[n - 3], v, 0);
    } else if v == 0 {
      assert HasEdge(r[0], 0, 1);
    } else {
      assert (v + 1) % n == v + 1;
      assert HasEdge(r[v - 1], v, v + 1);
    }
  }
}
