/** The mesh loop of active_mesh_to_voyage_exr: per-vertex positions and
    normals are copied one-to-one, each polygon yields the triangle of its
    first three vertex indices, and each vertex keeps a single UV, the one
    written last by a polygon corner that references it. */
module MeshFlatten {
  import opened Geometry

  /** A host mesh vertex: its position and its normal. */
  datatype MeshVertex = MeshVertex(co: Vec3, normal: Vec3)

  /** A host polygon: its vertex indices in corner order, and the UV carried
      by each of its corners (its loops), in the same order. */
  datatype Polygon = Polygon(vertices: seq<nat>, cornerUvs: seq<Vec2>)

  /** The flattened mesh handed to the layout builder. */
  datatype FlatMesh = FlatMesh(verts: seq<Vec3>, normals: seq<Vec3>, uvs: seq<Vec2>, triangles: seq<Triangle>)

  /** The UV a vertex keeps when no corner references it. */
  const UntouchedUv: Vec2 := Vec2(0.0, 0.0)

  /** At least three corners, one UV per corner, every index in range. */
  predicate ValidPolygon(p: Polygon, nVerts: nat) {
    && |p.vertices| >= 3
    && |p.cornerUvs| == |p.vertices|
    && forall c :: 0 <= c < |p.vertices| ==> p.vertices[c] < nVerts
  }

  predicate ValidPolygons(polygons: seq<Polygon>, nVerts: nat) {
    forall p :: 0 <= p < |polygons| ==> ValidPolygon(polygons[p], nVerts)
  }

  /** The triangle made of a polygon's first three vertex indices. */
  function FirstTriangle(p: Polygon): Triangle
    requires |p.vertices| >= 3
  {
    Triangle(p.vertices[0], p.vertices[1], p.vertices[2])
  }

  /** Overwrites `uvs[indices[c]]` with `cornerUvs[c]` for each corner `c`,
      in corner order. */
  function SetCornerUvs(uvs: seq<Vec2>, indices: seq<nat>, cornerUvs: seq<Vec2>): (r: seq<Vec2>)
    requires |cornerUvs| == |indices|
    requires forall c :: 0 <= c < |indices| ==> indices[c] < |uvs|
    ensures |r| == |uvs|
    decreases |indices|
  {
    if |indices| == 0 then uvs
    else
      var n := |indices| - 1;
      SetCornerUvs(uvs, indices[..n], cornerUvs[..n])[indices[n] := cornerUvs[n]]
  }

  /** Applies the corner UVs of every polygon, in polygon order. */
  function ApplyPolygonUvs(uvs: seq<Vec2>, polygons: seq<Polygon>): (r: seq<Vec2>)
    requires ValidPolygons(polygons, |uvs|)
    ensures |r| == |uvs|
    decreases |polygons|
  {
    if |polygons| == 0 then uvs
    else
      var n := |polygons| - 1;
      var p := polygons[n];
      SetCornerUvs(ApplyPolygonUvs(uvs, polygons[..n]), p.vertices, p.cornerUvs)
  }

  /** The flattening itself. */
  function Flatten(vertices: seq<MeshVertex>, polygons: seq<Polygon>): (r: FlatMesh)
    requires ValidPolygons(polygons, |vertices|)
    ensures |r.verts| == |r.normals| == |r.uvs| == |vertices|
    ensures |r.triangles| == |polygons|
    ensures forall i :: 0 <= i < |vertices| ==> r.verts[i] == vertices[i].co && r.normals[i] == vertices[i].normal
    ensures forall t :: 0 <= t < |polygons| ==> r.triangles[t] == FirstTriangle(polygons[t])
    ensures forall t :: 0 <= t < |r.triangles| ==>
      r.triangles[t].a < |r.verts| && r.triangles[t].b < |r.verts| && r.triangles[t].c < |r.verts|
  {
    var initial := seq(|vertices|, _ => UntouchedUv);
    FlatMesh(
      seq(|vertices|, i requires 0 <= i < |vertices| => vertices[i].co),
      seq(|vertices|, i requires 0 <= i < |vertices| => vertices[i].normal),
      ApplyPolygonUvs(initial, polygons),
      seq(|polygons|, t requires 0 <= t < |polygons| => FirstTriangle(polygons[t])))
  }

  // ---------------------------------------------------------------------
  // Which corner's UV a vertex ends up with

  /** No corner of `indices` after corner `c` references `v`. */
  ghost predicate NoLaterCorner(indices: seq<nat>, c: int, v: nat) {
    forall c' :: 0 <= c' && c < c' < |indices| ==> indices[c'] != v
  }

  /** No polygon after polygon `p` references `v`. */
  ghost predicate NoLaterPolygon(polygons: seq<Polygon>, p: int, v: nat) {
    forall q, c :: 0 <= q && p < q < |polygons| && 0 <= c < |polygons[q].vertices| ==> polygons[q].vertices[c] != v
  }

  /** No corner of any polygon references `v`. */
  ghost predicate Unreferenced(polygons: seq<Polygon>, v: nat) {
    forall q, c :: 0 <= q < |polygons| && 0 <= c < |polygons[q].vertices| ==> polygons[q].vertices[c] != v
  }

  /** Corner `c` of polygon `p` is the last corner, in polygon order and then
      corner order, that references vertex `v`. */
  ghost predicate IsLastCorner(polygons: seq<Polygon>, p: int, c: int, v: nat) {
    && 0 <= p < |polygons|
    && 0 <= c < |polygons[p].vertices|
    && polygons[p].vertices[c] == v
    && NoLaterCorner(polygons[p].vertices, c, v)
    && NoLaterPolygon(polygons, p, v)
  }

  /** Among one polygon's corners, the last writer wins. */
  lemma {:induction false} SetCornerUvsLastWriter(uvs: seq<Vec2>, indices: seq<nat>, cornerUvs: seq<Vec2>, v: nat)
    requires |cornerUvs| == |indices|
    requires forall c :: 0 <= c < |indices| ==> indices[c] < |uvs|
    requires v < |uvs|
    ensures NoLaterCorner(indices, -1, v) ==> SetCornerUvs(uvs, indices, cornerUvs)[v] == uvs[v]
    ensures forall c :: 0 <= c < |indices| && indices[c] == v && NoLaterCorner(indices, c, v) ==>
      SetCornerUvs(uvs, indices, cornerUvs)[v] == cornerUvs[c]
    decreases |indices|
  {
    if |indices| > 0 {
      var n := |indices| - 1;
      var pre, preUvs := indices[..n], cornerUvs[..n];
      SetCornerUvsLastWriter(uvs, pre, preUvs, v);
      forall c | 0 <= c < |indices| && indices[c] == v && NoLaterCorner(indices, c, v)
        ensures SetCornerUvs(uvs, indices, cornerUvs)[v] == cornerUvs[c]
      {
        if c < n {
          assert indices[n] != v;
          assert pre[c] == v && NoLaterCorner(pre, c, v);
        }
      }
      if NoLaterCorner(indices, -1, v) {
        assert NoLaterCorner(pre, -1, v);
        assert indices[n] != v;
      }
    }
  }

  /** Across polygons, the last writer wins; an untouched vertex keeps its
      initial UV. */
  lemma {:induction false} ApplyPolygonUvsLastWriter(uvs: seq<Vec2>, polygons: seq<Polygon>, v: nat)
    requires ValidPolygons(polygons, |uvs|)
    requires v < |uvs|
    ensures Unreferenced(polygons, v) ==> ApplyPolygonUvs(uvs, polygons)[v] == uvs[v]
    ensures forall p, c :: IsLastCorner(polygons, p, c, v) ==>
      ApplyPolygonUvs(uvs, polygons)[v] == polygons[p].cornerUvs[c]
    decreases |polygons|
  {
    if |polygons| > 0 {
      var n := |polygons| - 1;
      var pre := polygons[..n];
      var last := polygons[n];
      assert ValidPolygon(last, |uvs|);
      assert ValidPolygons(pre, |uvs|) by {
        forall q | 0 <= q < |pre| ensures ValidPolygon(pre[q], |uvs|) {
          assert pre[q] == polygons[q];
        }
      }
      var prev := ApplyPolygonUvs(uvs, pre);
      ApplyPolygonUvsLastWriter(uvs, pre, v);
      SetCornerUvsLastWriter(prev, last.vertices, last.cornerUvs, v);
      assert ApplyPolygonUvs(uvs, polygons) == SetCornerUvs(prev, last.vertices, last.cornerUvs);
      forall p, c | IsLastCorner(polygons, p, c, v)
        ensures ApplyPolygonUvs(uvs, polygons)[v] == polygons[p].cornerUvs[c]
      {
        if p < n {
          assert NoLaterCorner(last.vertices, -1, v) by {
            forall c' | 0 <= c' < |last.vertices| ensures last.vertices[c'] != v {
              assert polygons[n].vertices[c'] != v;
            }
          }
          assert IsLastCorner(pre, p, c, v) by {
            assert pre[p] == polygons[p];
            forall q, c' | p < q < |pre| && 0 <= c' < |pre[q].vertices|
              ensures pre[q].vertices[c'] != v
            {
              assert pre[q] == polygons[q];
            }
          }
        }
      }
      if Unreferenced(polygons, v) {
        assert NoLaterCorner(last.vertices, -1, v) by {
          forall c' | 0 <= c' < |last.vertices| ensures last.vertices[c'] != v {
            assert polygons[n].vertices[c'] != v;
          }
        }
        assert Unreferenced(pre, v) by {
          forall q, c' | -1 < q < |pre| && 0 <= c' < |pre[q].vertices|
            ensures pre[q].vertices[c'] != v
          {
            assert pre[q] == polygons[q];
          }
        }
      }
    }
  }

  /** A vertex's flattened UV is the UV of the last corner that references
      it, or (0, 0) when no corner references it. */
  lemma FlattenUvIsLastCorner(vertices: seq<MeshVertex>, polygons: seq<Polygon>, v: nat)
    requires ValidPolygons(polygons, |vertices|)
    requires v < |vertices|
    ensures Unreferenced(polygons, v) ==> Flatten(vertices, polygons).uvs[v] == UntouchedUv
    ensures forall p, c :: IsLastCorner(polygons, p, c, v) ==>
      Flatten(vertices, polygons).uvs[v] == polygons[p].cornerUvs[c]
  {
    ApplyPolygonUvsLastWriter(seq(|vertices|, _ => UntouchedUv), polygons, v);
  }

  /** Some corner of `indices` references `v`, and one of them is the last. */
  lemma {:induction false} LastCornerInPolygon(indices: seq<nat>, v: nat, c0: nat)
    requires c0 < |indices| && indices[c0] == v
    ensures exists c :: 0 <= c < |indices| && indices[c] == v && NoLaterCorner(indices, c, v)
    decreases |indices|
  {
    var n := |indices| - 1;
    if indices[n] != v {
      LastCornerInPolygon(indices[..n], v, c0);
      var c :| 0 <= c < n && indices[..n][c] == v && NoLaterCorner(indices[..n], c, v);
      assert indices[c] == v && NoLaterCorner(indices, c, v);
    } else {
      assert NoLaterCorner(indices, n, v);
    }
  }

  /** A vertex that some corner references has a last referencing corner, so
      the two cases of FlattenUvIsLastCorner cover every vertex. */
  lemma {:induction false} LastCornerExists(polygons: seq<Polygon>, v: nat, p0: nat, c0: nat)
    requires p0 < |polygons| && c0 < |polygons[p0].vertices| && polygons[p0].vertices[c0] == v
    ensures exists p, c :: IsLastCorner(polygons, p, c, v)
    decreases |polygons|
  {
    var n := |polygons| - 1;
    var last := polygons[n];
    if exists c1 :: 0 <= c1 < |last.vertices| && last.vertices[c1] == v {
      var c1 :| 0 <= c1 < |last.vertices| && last.vertices[c1] == v;
      LastCornerInPolygon(last.vertices, v, c1);
      var c :| 0 <= c < |last.vertices| && last.vertices[c] == v && NoLaterCorner(last.vertices, c, v);
      assert IsLastCorner(polygons, n, c, v);
    } else {
      var pre := polygons[..n];
      assert p0 < n;
      assert pre[p0] == polygons[p0];
      LastCornerExists(pre, v, p0, c0);
      var p, c :| IsLastCorner(pre, p, c, v);
      assert pre[p] == polygons[p];
      forall q, c' | p < q < |polygons| && 0 <= c' < |polygons[q].vertices|
        ensures polygons[q].vertices[c'] != v
      {
        if q < n {
          assert pre[q] == polygons[q];
        }
      }
      assert IsLastCorner(polygons, p, c, v);
    }
  }
}
