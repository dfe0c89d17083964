/** The version-2 binary layout: a 64-slot metadata header followed by the
    vertex, normal, UV and triangle-index blocks, as one flat sequence of
    values (generate_voyage_exr). */
module Layout {
  import opened Geometry

  /** A payload entry. The exporter never does arithmetic on these; it only
      places them, so NaN and +Infinity are distinguished symbols. */
  datatype Value = Num(x: real) | NaN | PosInf

  const Zero: Value := Num(0.0)

  /** The two magic words. */
  const Voy: int := 0x00564f59
  const Age: int := 0x00454741
  const FormatVersion: int := 2

  const MetadataSize: nat := 64
  const IndexVersion: nat := 4
  const IndexVertices: nat := 8
  const IndexNormals: nat := 9
  const IndexUvs: nat := 10
  const IndexIndices: nat := 11

  /** An integer (a count, a magic word, a vertex index) stored as a value. */
  function Count(n: int): Value {
    Num(n as real)
  }

  /** Header slots that no assignment touches. */
  predicate IsReservedSlot(i: int) {
    (5 <= i < IndexVertices) || (IndexIndices < i < MetadataSize)
  }

  /** The header, built as the source does: a zero-filled array of 64 slots,
      then one assignment per named slot. */
  function Header(nVerts: nat, nNormals: nat, nUvs: nat, nIndices: nat): (h: seq<Value>)
    ensures |h| == MetadataSize
    ensures h[0] == Count(Voy) && h[1] == Count(Age)
    ensures h[2] == NaN && h[3] == PosInf
    ensures h[IndexVersion] == Count(FormatVersion)
    ensures h[IndexVertices] == Count(nVerts) && h[IndexNormals] == Count(nNormals)
    ensures h[IndexUvs] == Count(nUvs) && h[IndexIndices] == Count(nIndices)
    ensures forall i :: 0 <= i < |h| && IsReservedSlot(i) ==> h[i] == Zero
  {
    seq(MetadataSize, _ => Zero)
      [0 := Count(Voy)]
      [1 := Count(Age)]
      [2 := NaN]
      [3 := PosInf]
      [IndexVersion := Count(FormatVersion)]
      [IndexVertices := Count(nVerts)]
      [IndexNormals := Count(nNormals)]
      [IndexUvs := Count(nUvs)]
      [IndexIndices := Count(nIndices)]
  }

  /** A position or normal occupies four slots, the last one padding. */
  function Vec3Words(p: Vec3): seq<Value> {
    [Num(p.x), Num(p.y), Num(p.z), Zero]
  }

  /** A UV occupies four slots, the last two padding. */
  function UvWords(t: Vec2): seq<Value> {
    [Num(t.u), Num(t.v), Zero, Zero]
  }

  /** A triangle occupies three unpadded slots. */
  function TriangleWords(t: Triangle): seq<Value> {
    [Count(t.a), Count(t.b), Count(t.c)]
  }

  /** Concatenation of a sequence of chunks, in order. */
  function Join(chunks: seq<seq<Value>>): seq<Value> {
    if |chunks| == 0 then [] else chunks[0] + Join(chunks[1..])
  }

  /** When every chunk has width `w`, the join is `w` times as long. */
  lemma {:induction false} JoinLength(chunks: seq<seq<Value>>, w: nat)
    requires forall i :: 0 <= i < |chunks| ==> |chunks[i]| == w
    ensures |Join(chunks)| == w * |chunks|
  {
    if |chunks| > 0 {
      JoinLength(chunks[1..], w);
      assert w * |chunks| == w + w * (|chunks| - 1);
    }
  }

  /** When every chunk has width `w`, entry `k` of chunk `i` sits at `w * i + k`. */
  lemma {:induction false} JoinIndex(chunks: seq<seq<Value>>, w: nat, i: nat, k: nat)
    requires forall j :: 0 <= j < |chunks| ==> |chunks[j]| == w
    requires i < |chunks| && k < w
    ensures w * i + k < |Join(chunks)|
    ensures Join(chunks)[w * i + k] == chunks[i][k]
  {
    JoinLength(chunks, w);
    if i > 0 {
      var rest := chunks[1..];
      JoinIndex(rest, w, i - 1, k);
      assert w * i + k == w + (w * (i - 1) + k);
      assert Join(chunks) == chunks[0] + Join(rest);
    }
  }

  /** Chunk `i` of a fixed-width join, read back as a slice. */
  lemma JoinSlice(chunks: seq<seq<Value>>, w: nat, i: nat)
    requires forall j :: 0 <= j < |chunks| ==> |chunks[j]| == w
    requires i < |chunks|
    ensures |Join(chunks)| == w * |chunks|
    ensures w * i + w <= |Join(chunks)|
    ensures Join(chunks)[w * i .. w * i + w] == chunks[i]
  {
    JoinLength(chunks, w);
    assert w * i + w == w * (i + 1) <= w * |chunks|;
    var s := Join(chunks)[w * i .. w * i + w];
    forall k | 0 <= k < w ensures s[k] == chunks[i][k] {
      JoinIndex(chunks, w, i, k);
    }
  }

  function Vec3Block(ps: seq<Vec3>): seq<Value> {
    Join(seq(|ps|, i requires 0 <= i < |ps| => Vec3Words(ps[i])))
  }

  function UvBlock(uvs: seq<Vec2>): seq<Value> {
    Join(seq(|uvs|, i requires 0 <= i < |uvs| => UvWords(uvs[i])))
  }

  function TriangleBlock(ts: seq<Triangle>): seq<Value> {
    Join(seq(|ts|, i requires 0 <= i < |ts| => TriangleWords(ts[i])))
  }

  /** The whole payload handed to the container: header, then the four blocks. */
  function Payload(verts: seq<Vec3>, normals: seq<Vec3>, uvs: seq<Vec2>, triangles: seq<Triangle>): seq<Value> {
    Header(|verts|, |normals|, |uvs|, 3 * |triangles|)
      + Vec3Block(verts) + Vec3Block(normals) + UvBlock(uvs) + TriangleBlock(triangles)
  }

  lemma Vec3BlockSlice(ps: seq<Vec3>, i: nat)
    requires i < |ps|
    ensures |Vec3Block(ps)| == 4 * |ps|
    ensures 4 * i + 4 <= |Vec3Block(ps)|
    ensures Vec3Block(ps)[4 * i .. 4 * i + 4] == Vec3Words(ps[i])
  {
    JoinSlice(seq(|ps|, j requires 0 <= j < |ps| => Vec3Words(ps[j])), 4, i);
  }

  lemma UvBlockSlice(uvs: seq<Vec2>, i: nat)
    requires i < |uvs|
    ensures |UvBlock(uvs)| == 4 * |uvs|
    ensures 4 * i + 4 <= |UvBlock(uvs)|
    ensures UvBlock(uvs)[4 * i .. 4 * i + 4] == UvWords(uvs[i])
  {
    JoinSlice(seq(|uvs|, j requires 0 <= j < |uvs| => UvWords(uvs[j])), 4, i);
  }

  lemma TriangleBlockSlice(ts: seq<Triangle>, i: nat)
    requires i < |ts|
    ensures |TriangleBlock(ts)| == 3 * |ts|
    ensures 3 * i + 3 <= |TriangleBlock(ts)|
    ensures TriangleBlock(ts)[3 * i .. 3 * i + 3] == TriangleWords(ts[i])
  {
    JoinSlice(seq(|ts|, j requires 0 <= j < |ts| => TriangleWords(ts[j])), 3, i);
  }

  lemma Vec3BlockLength(ps: seq<Vec3>)
    ensures |Vec3Block(ps)| == 4 * |ps|
  {
    JoinLength(seq(|ps|, j requires 0 <= j < |ps| => Vec3Words(ps[j])), 4);
  }

  lemma UvBlockLength(uvs: seq<Vec2>)
    ensures |UvBlock(uvs)| == 4 * |uvs|
  {
    JoinLength(seq(|uvs|, j requires 0 <= j < |uvs| => UvWords(uvs[j])), 4);
  }

  lemma TriangleBlockLength(ts: seq<Triangle>)
    ensures |TriangleBlock(ts)| == 3 * |ts|
  {
    JoinLength(seq(|ts|, j requires 0 <= j < |ts| => TriangleWords(ts[j])), 3);
  }

  /** A slice that lies inside the middle part of a concatenation. */
  lemma SliceOfMiddle(pre: seq<Value>, mid: seq<Value>, post: seq<Value>, lo: nat, hi: nat)
    requires lo <= hi <= |mid|
    ensures (pre + mid + post)[|pre| + lo .. |pre| + hi] == mid[lo .. hi]
  {
    var s := pre + mid + post;
    assert forall k :: 0 <= k < hi - lo ==> s[|pre| + lo .. |pre| + hi][k] == mid[lo .. hi][k];
  }

  lemma PayloadLength(verts: seq<Vec3>, normals: seq<Vec3>, uvs: seq<Vec2>, triangles: seq<Triangle>)
    ensures |Payload(verts, normals, uvs, triangles)|
      == 64 + 4 * |verts| + 4 * |normals| + 4 * |uvs| + 3 * |triangles|
  {
    Vec3BlockLength(verts);
    Vec3BlockLength(normals);
    UvBlockLength(uvs);
    TriangleBlockLength(triangles);
  }

  lemma PayloadVertex(verts: seq<Vec3>, normals: seq<Vec3>, uvs: seq<Vec2>, triangles: seq<Triangle>, i: nat)
    requires i < |verts|
    ensures 64 + 4 * i + 4 <= |Payload(verts, normals, uvs, triangles)|
    ensures Payload(verts, normals, uvs, triangles)[64 + 4 * i .. 64 + 4 * i + 4] == Vec3Words(verts[i])
  {
    PayloadLength(verts, normals, uvs, triangles);
    var h := Header(|verts|, |normals|, |uvs|, 3 * |triangles|);
    var vb := Vec3Block(verts);
    var post := Vec3Block(normals) + UvBlock(uvs) + TriangleBlock(triangles);
    assert Payload(verts, normals, uvs, triangles) == h + vb + post;
    Vec3BlockSlice(verts, i);
    SliceOfMiddle(h, vb, post, 4 * i, 4 * i + 4);
  }

  lemma PayloadNormal(verts: seq<Vec3>, normals: seq<Vec3>, uvs: seq<Vec2>, triangles: seq<Triangle>, j: nat)
    requires j < |normals|
    ensures 64 + 4 * |verts| + 4 * j + 4 <= |Payload(verts, normals, uvs, triangles)|
    ensures Payload(verts, normals, uvs, triangles)[64 + 4 * |verts| + 4 * j .. 64 + 4 * |verts| + 4 * j + 4]
      == Vec3Words(normals[j])
  {
    PayloadLength(verts, normals, uvs, triangles);
    Vec3BlockLength(verts);
    var pre := Header(|verts|, |normals|, |uvs|, 3 * |triangles|) + Vec3Block(verts);
    var nb := Vec3Block(normals);
    var post := UvBlock(uvs) + TriangleBlock(triangles);
    assert Payload(verts, normals, uvs, triangles) == pre + nb + post;
    Vec3BlockSlice(normals, j);
    SliceOfMiddle(pre, nb, post, 4 * j, 4 * j + 4);
  }

  lemma PayloadUv(verts: seq<Vec3>, normals: seq<Vec3>, uvs: seq<Vec2>, triangles: seq<Triangle>, k: nat)
    requires k < |uvs|
    ensures var o := 64 + 4 * |verts| + 4 * |normals| + 4 * k;
      o + 4 <= |Payload(verts, normals, uvs, triangles)|
      && Payload(verts, normals, uvs, triangles)[o .. o + 4] == UvWords(uvs[k])
  {
    PayloadLength(verts, normals, uvs, triangles);
    Vec3BlockLength(verts);
    Vec3BlockLength(normals);
    var pre := Header(|verts|, |normals|, |uvs|, 3 * |triangles|) + Vec3Block(verts) + Vec3Block(normals);
    var ub := UvBlock(uvs);
    var post := TriangleBlock(triangles);
    assert Payload(verts, normals, uvs, triangles) == pre + ub + post;
    UvBlockSlice(uvs, k);
    SliceOfMiddle(pre, ub, post, 4 * k, 4 * k + 4);
  }

  lemma PayloadTriangle(verts: seq<Vec3>, normals: seq<Vec3>, uvs: seq<Vec2>, triangles: seq<Triangle>, t: nat)
    requires t < |triangles|
    ensures var o := 64 + 4 * |verts| + 4 * |normals| + 4 * |uvs| + 3 * t;
      o + 3 <= |Payload(verts, normals, uvs, triangles)|
      && Payload(verts, normals, uvs, triangles)[o .. o + 3] == TriangleWords(triangles[t])
  {
    PayloadLength(verts, normals, uvs, triangles);
    Vec3BlockLength(verts);
    Vec3BlockLength(normals);
    UvBlockLength(uvs);
    var pre := Header(|verts|, |normals|, |uvs|, 3 * |triangles|)
      + Vec3Block(verts) + Vec3Block(normals) + UvBlock(uvs);
    var tb := TriangleBlock(triangles);
    assert Payload(verts, normals, uvs, triangles) == pre + tb + [];
    TriangleBlockSlice(triangles, t);
    SliceOfMiddle(pre, tb, [], 3 * t, 3 * t + 3);
  }

  /** The payload's length and the exact offset of every header slot and
      every block entry. */
  lemma PayloadLayout(verts: seq<Vec3>, normals: seq<Vec3>, uvs: seq<Vec2>, triangles: seq<Triangle>)
    ensures var p := Payload(verts, normals, uvs, triangles);
      && |p| == 64 + 4 * |verts| + 4 * |normals| + 4 * |uvs| + 3 * |triangles|
      && p[..MetadataSize] == Header(|verts|, |normals|, |uvs|, 3 * |triangles|)
    ensures var p := Payload(verts, normals, uvs, triangles);
      forall i :: 0 <= i < |verts| ==>
        p[64 + 4 * i .. 64 + 4 * i + 4] == [Num(verts[i].x), Num(verts[i].y), Num(verts[i].z), Zero]
    ensures var p := Payload(verts, normals, uvs, triangles);
      forall j :: 0 <= j < |normals| ==>
        p[64 + 4 * |verts| + 4 * j .. 64 + 4 * |verts| + 4 * j + 4]
          == [Num(normals[j].x), Num(normals[j].y), Num(normals[j].z), Zero]
    ensures var p := Payload(verts, normals, uvs, triangles);
      forall k :: 0 <= k < |uvs| ==>
        p[64 + 4 * |verts| + 4 * |normals| + 4 * k .. 64 + 4 * |verts| + 4 * |normals| + 4 * k + 4]
          == [Num(uvs[k].u), Num(uvs[k].v), Zero, Zero]
    ensures var p := Payload(verts, normals, uvs, triangles);
      forall t :: 0 <= t < |triangles| ==>
        p[64 + 4 * |verts| + 4 * |normals| + 4 * |uvs| + 3 * t .. 64 + 4 * |verts| + 4 * |normals| + 4 * |uvs| + 3 * t + 3]
          == [Count(triangles[t].a), Count(triangles[t].b), Count(triangles[t].c)]
  {
    PayloadLength(verts, normals, uvs, triangles);
    forall i | 0 <= i < |verts|
      ensures Payload(verts, normals, uvs, triangles)[64 + 4 * i .. 64 + 4 * i + 4] == Vec3Words(verts[i])
    {
      PayloadVertex(verts, normals, uvs, triangles, i);
    }
    forall j | 0 <= j < |normals|
      ensures Payload(verts, normals, uvs, triangles)[64 + 4 * |verts| + 4 * j .. 64 + 4 * |verts| + 4 * j + 4]
        == Vec3Words(normals[j])
    {
      PayloadNormal(verts, normals, uvs, triangles, j);
    }
    forall k | 0 <= k < |uvs|
      ensures var o := 64 + 4 * |verts| + 4 * |normals| + 4 * k;
        Payload(verts, normals, uvs, triangles)[o .. o + 4] == UvWords(uvs[k])
    {
      PayloadUv(verts, normals, uvs, triangles, k);
    }
    forall t | 0 <= t < |triangles|
      ensures var o := 64 + 4 * |verts| + 4 * |normals| + 4 * |uvs| + 3 * t;
        Payload(verts, normals, uvs, triangles)[o .. o + 3] == TriangleWords(triangles[t])
    {
      PayloadTriangle(verts, normals, uvs, triangles, t);
    }
  }
}
