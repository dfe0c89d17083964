/** active_mesh_to_voyage_exr end to end: flatten the mesh, lay the payload
    out, and store it in the image. */
module Exporter {
  import opened MeshFlatten
  import opened Layout
  import opened TextureSize
  import opened Container

  /** The payload generate_voyage_exr builds from the flattened mesh. */
  function EncodeMesh(vertices: seq<MeshVertex>, polygons: seq<Polygon>): (p: seq<Value>)
    requires ValidPolygons(polygons, |vertices|)
    ensures |p| == 64 + 12 * |vertices| + 3 * |polygons|
    ensures p[..MetadataSize] == Header(|vertices|, |vertices|, |vertices|, 3 * |polygons|)
    ensures forall i :: 0 <= i < |vertices| ==>
      && p[64 + 4 * i .. 64 + 4 * i + 4] == Vec3Words(vertices[i].co)
      && p[64 + 4 * |vertices| + 4 * i .. 64 + 4 * |vertices| + 4 * i + 4] == Vec3Words(vertices[i].normal)
    ensures forall t :: 0 <= t < |polygons| ==>
      p[64 + 12 * |vertices| + 3 * t .. 64 + 12 * |vertices| + 3 * t + 3]
        == [Count(polygons[t].vertices[0]), Count(polygons[t].vertices[1]), Count(polygons[t].vertices[2])]
  {
    var f := Flatten(vertices, polygons);
    PayloadLayout(f.verts, f.normals, f.uvs, f.triangles);
    Payload(f.verts, f.normals, f.uvs, f.triangles)
  }

  /** The payload of a mesh is never empty, and its first entry is the
      integer magic word, the value the direct revision prints first. */
  lemma EncodedFirstEntryIsMagic(vertices: seq<MeshVertex>, polygons: seq<Polygon>)
    requires ValidPolygons(polygons, |vertices|)
    ensures |EncodeMesh(vertices, polygons)| > 0
    ensures EncodeMesh(vertices, polygons)[0] == Count(Voy)
  {
    var p := EncodeMesh(vertices, polygons);
    assert p[0] == p[..MetadataSize][0];
  }

  /** The UV block of the payload holds, for each vertex, the UV of the last
      corner that references it, or (0, 0). */
  lemma EncodedUv(vertices: seq<MeshVertex>, polygons: seq<Polygon>, v: nat)
    requires ValidPolygons(polygons, |vertices|)
    requires v < |vertices|
    ensures var p := EncodeMesh(vertices, polygons);
      var o := 64 + 8 * |vertices| + 4 * v;
      && (Unreferenced(polygons, v) ==> p[o .. o + 4] == UvWords(UntouchedUv))
      && (forall q, c :: IsLastCorner(polygons, q, c, v) ==>
            p[o .. o + 4] == UvWords(polygons[q].cornerUvs[c]))
  {
    var f := Flatten(vertices, polygons);
    PayloadUv(f.verts, f.normals, f.uvs, f.triangles, v);
    FlattenUvIsLastCorner(vertices, polygons, v);
  }

  /** The voyage revision's export of the active mesh. */
  function ExportActiveMesh(vertices: seq<MeshVertex>, polygons: seq<Polygon>, newImage: (int, int) -> seq<Value>): (r: Export)
    requires ValidPolygons(polygons, |vertices|)
    requires HostAllocates(newImage)
    ensures r.Aborted? <==> 64 + 12 * |vertices| + 3 * |polygons| >= 1024 * 1024
    ensures r.Saved? ==>
      var p := EncodeMesh(vertices, polygons);
      && Dimensions(r.width, r.height) == VoyageBestSize(|p|, DefaultMaxLength)
      && |p| <= |r.pixels|
      && r.pixels[..|p|] == p
      && r.pixels[|p|..] == newImage(r.width, r.height)[|p|..]
  {
    ExportVoyage(EncodeMesh(vertices, polygons), newImage)
  }

  /** The direct revision's export of the active mesh. */
  function ExportActiveMeshDirect(vertices: seq<MeshVertex>, polygons: seq<Polygon>, newImage: (int, int) -> seq<Value>): (r: Export)
    requires ValidPolygons(polygons, |vertices|)
    ensures r.Saved?
    ensures r.width == -1 <==> 64 + 12 * |vertices| + 3 * |polygons| >= 2048 * 2048
    ensures r.width != -1 ==> Dimensions(r.width, r.height) == DirectBestSize(64 + 12 * |vertices| + 3 * |polygons|)
    ensures var p := EncodeMesh(vertices, polygons);
      forall i :: 0 <= i < Min(|p|, |r.pixels|) ==> r.pixels[i] == p[i]
  {
    ExportDirect(EncodeMesh(vertices, polygons), newImage)
  }
}
