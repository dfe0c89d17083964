# Voyage direct model exporter — verified model

The Blender add-on "Voyage Direct Model Exporter" encodes the active mesh
into a 32-bit float OpenEXR image so that it can be rebuilt inside VRChat.
Two revisions of the exporter are modelled, `voyage_direct_model_exporter.py`
(the operator-class revision) and `direct-model-exporter.py` (the
module-level script). Both write mesh format version 2. Three pieces of pure
logic are modelled:

1. **Mesh flattening** (`MeshFlatten`, the mesh loop of
   `active_mesh_to_voyage_exr`). Positions and normals are copied one-to-one.
   Each polygon yields the triangle of its first three vertex indices. Every
   vertex gets one UV by overwriting: the last polygon corner that references
   it wins, and an untouched vertex keeps `(0, 0)`.
2. **Binary layout** (`Layout`, `generate_voyage_exr`). A 64-slot header holds
   the magic words `0x00564f59` and `0x00454741`, NaN, +Infinity, version 2 and
   four counts at slots 8–11; every other slot is zero. After it come a
   4-stride vertex block, a 4-stride normal block, a 4-stride UV block and a
   3-stride triangle-index block.
3. **Container sizing and copy** (`TextureSize`, `Container`,
   `best_texture_size_for` and `generate_exr_with_data`). The sizing finds the
   smallest power-of-two side `s` with `s * s > len(data)`. The copy writes the
   payload into the prefix of the image's `width * height * 4` channel buffer.

`Exporter` composes the three into the whole export of one mesh.

Payload entries are the abstract datatype `Value = Num(real) | NaN | PosInf`.
The exporter never computes with them; it only places them. Integers (counts,
magic words, vertex indices) are stored as `Num(n as real)`.

The host's image allocation is the parameter `newImage(w, h)`: the channel
buffer Blender hands back for a new `w`-by-`h` float image. The voyage
revision needs it to have `w * h * 4` entries for positive sides
(`Container.HostAllocates`). The direct revision needs nothing of it.

The two revisions differ in four ways, and the model states each:

- Voyage's `while square_length < max_length_size` excludes side 2048, so its
  largest answer is 1024 and sizing fails from `1024 * 1024` entries on.
  Direct's twelve-entry table includes side 2048, so it fails only from
  `2048 * 2048` entries on. `TextureSize.DirectIsVoyageWithInclusive2048`
  proves that the table scan is the voyage search with its exclusive bound
  raised to 4096.
- Voyage returns `False` before any write when sizing fails. Direct prints a
  message and carries on with a `(-1, -1)` image (`Container.ExportDirect`).
- Voyage copies with one slice assignment of all `len(data)` entries
  (`Container.CopyPrefix`). Direct loops over `min(data_size, n_pixels)`
  entries (`Container.CopyFirst`), so its writes stay inside whatever buffer
  it gets. `Container.CopyFirstIsCopyPrefix` proves the two copies agree
  whenever the payload fits.
- Voyage reports its outcome as `True` or `False`; direct returns nothing. In
  the model both yield an `Export`: `Aborted` for voyage's `False`, `Saved`
  for voyage's `True` and for every direct export.

The flattening (`direct-model-exporter.py:203-215`) and the header and block
layout (`direct-model-exporter.py:107-160`) are the same, statement for
statement, as in the voyage revision. One definition models both. The rows
below cite the voyage file for them.

Some plain facts about this code that a reader of the format may look for:

- The sizing test is `s * s > len(data)`, so at most a quarter of the RGBA
  buffer is ever used.
- Slot 2 holds NaN and slot 3 holds +Infinity.
- The version is 2, and slots 5–7 and 12–63 are zero.
- UVs are resolved per vertex by overwriting; no vertex is split or duplicated,
  the corner order of each triangle is kept, and every polygon is exported.
- The triangle-index block is the last block; it is not padded, and no table
  follows it.

## Model

| member | source | states |
|---|---|---|
| MeshFlatten.Flatten | voyage_direct_model_exporter.py:198-207 | the output vertex, normal and UV lists have the input's vertex count, with positions and normals copied in order; there is one triangle per polygon, in polygon order, made of that polygon's first three indices; every triangle index names an existing output vertex |
| MeshFlatten.SetCornerUvsLastWriter | voyage_direct_model_exporter.py:209-210 | within one polygon, a vertex ends with the UV of its last corner; a vertex that no corner references keeps its previous UV |
| MeshFlatten.ApplyPolygonUvsLastWriter | voyage_direct_model_exporter.py:204-210 | across all polygons, a vertex ends with the UV of the last corner referencing it, by polygon order and then corner order; an unreferenced vertex keeps its initial UV |
| MeshFlatten.FlattenUvIsLastCorner | voyage_direct_model_exporter.py:198-210 | a flattened vertex's UV is that of the last corner referencing it, or (0, 0) if no corner references it |
| MeshFlatten.LastCornerExists | voyage_direct_model_exporter.py:204-210 | a vertex that any corner references has a last referencing corner, so the two cases above cover every vertex |
| Layout.Header | voyage_direct_model_exporter.py:102-129 | 64 slots; slot 0 = 0x00564f59, slot 1 = 0x00454741, slot 2 = NaN, slot 3 = +Infinity, slot 4 = version 2, slots 8–11 = vertex, normal and UV counts and index count; every reserved slot (5–7, 12–63) is zero |
| Layout.JoinIndex | voyage_direct_model_exporter.py:133-156 | in a block of fixed-width records of width w, entry k of record i is at offset w*i + k |
| Layout.PayloadLayout | voyage_direct_model_exporter.py:113-159 | payload length is 64 + 4V + 4N + 4U + 3T; the first 64 entries are the header; vertex i is (x, y, z, 0) at 64+4i; normal j is (nx, ny, nz, 0) at 64+4V+4j; UV k is (u, v, 0, 0) at 64+4V+4N+4k; triangle t's indices, in order, are at 64+4V+4N+4U+3t |
| TextureSize.BestTextureSizeFor | voyage_direct_model_exporter.py:44-52 | the while loop returns [s, s] with s a power of two, s below the bound, s*s > size, and no smaller power of two fitting; it returns [-1, -1] exactly when no power of two below the bound fits; it equals the functional search |
| TextureSize.VoyageBestSizeIsBestFit | voyage_direct_model_exporter.py:44-52 | the functional form of the doubling search meets the same best-fit characterisation |
| TextureSize.BestFitUnique | voyage_direct_model_exporter.py:44-52 | the best-fit characterisation determines the answer, so any two searches meeting it agree |
| TextureSize.BoundedSearchLimit | voyage_direct_model_exporter.py:44-52 | under an exclusive bound 2m with m a power of two, the search fails exactly when size >= m*m, and any side it finds is at most m |
| TextureSize.RaisingBoundKeepsAnswer | voyage_direct_model_exporter.py:44-52 | raising max_length_size never changes an answer the lower bound already found |
| TextureSize.VoyageDefaultBound | voyage_direct_model_exporter.py:44-52 | with the default bound 2048, sizing fails exactly when size >= 1024*1024, and any side found is at most 1024 |
| TextureSize.DirectIsVoyageWithInclusive2048 | direct-model-exporter.py:5-24 | the table scan returns [1<<i, 1<<i] for the smallest i in 0..11 whose area exceeds size; this is the voyage search with its exclusive bound at 4096, so side 2048 is included |
| TextureSize.DirectDefaultBound | direct-model-exporter.py:5-24 | the direct sizing fails exactly when size >= 2048*2048, and any side found is at most 2048 |
| TextureSize.RevisionsAgreeBelowMegapixel | direct-model-exporter.py:5-24 | for size < 1024*1024 the two revisions return the same dimensions |
| TextureSize.RevisionsDifferFromMegapixel | direct-model-exporter.py:5-24 | for 1024*1024 <= size < 2048*2048 the voyage revision fails while the direct revision returns [2048, 2048] |
| Container.CopyFirst | direct-model-exporter.py:76-85 | the loop writes data[i] to pixels[i] for every i below the copy count, leaves every other entry unchanged and keeps the buffer length |
| Container.CopyFirstIsCopyPrefix | voyage_direct_model_exporter.py:78-82 | when the payload fits, the element loop of one revision and the slice assignment of the other produce the same buffer |
| Container.ExportVoyage | voyage_direct_model_exporter.py:55-87 | the export aborts, before any write, exactly when the payload has 1024*1024 entries or more; otherwise the image dimensions are exactly the sizing answer for len(data) (the smallest fitting power-of-two side, at most 1024), the payload is shorter than side*side and so fits the side*side*4 buffer, the buffer's prefix is the payload and the rest is as allocated |
| Container.ExportDirect | direct-model-exporter.py:26-94 | for a non-empty payload the export never aborts; the width is -1 exactly when the payload has 2048*2048 entries or more, and otherwise the dimensions are exactly the table scan's answer; whatever buffer the host returns, entries below min(len(data), len(pixels)) are the payload and the rest are unchanged |
| Container.DirectSavesWholePayload | direct-model-exporter.py:26-94 | for payloads below 2048*2048 entries and a host that allocates width*height*4 channels, the direct export saves a power-of-two image of side at most 2048 whose buffer starts with the whole payload and keeps the host's tail; this covers 1024*1024..2048*2048, where the voyage revision aborts |
| Container.RevisionsExportAlike | direct-model-exporter.py:26-94 | for payloads below 1024*1024 entries the two revisions save the same image |
| Exporter.EncodeMesh | voyage_direct_model_exporter.py:178-217 | the payload of a mesh has length 64 + 12V + 3P; it starts with the header for V vertices, normals and UVs and 3P indices; each vertex's position and normal sit in their 4-slot records; each polygon's first three indices sit in its 3-slot record |
| Exporter.EncodedFirstEntryIsMagic | direct-model-exporter.py:28 | the payload of any mesh is non-empty and its first entry is the integer magic word 0x00564f59, so the direct revision's first print of `data[0]` sees an integer |
| Exporter.EncodedUv | voyage_direct_model_exporter.py:198-217 | the UV record of vertex v in the payload is (u, v, 0, 0) of the last corner referencing v, or (0, 0, 0, 0) if no corner does |
| Exporter.ExportActiveMesh | voyage_direct_model_exporter.py:178-217 | exporting a mesh aborts exactly when 64 + 12V + 3P >= 1024*1024; otherwise the image dimensions are the sizing answer for the payload length, the saved buffer starts with the whole payload of the mesh (whose layout EncodeMesh states) and the rest is as the host allocated it |
| Exporter.ExportActiveMeshDirect | direct-model-exporter.py:183-227 | the direct export always saves; its width is -1 exactly when 64 + 12V + 3P >= 2048*2048, and otherwise the dimensions are the table scan's answer for the payload length; the saved buffer agrees with the payload on every entry both have |

## Left out

- All Blender interaction is left out because it is host I/O and UI. This covers depsgraph evaluation, `uv_layers` access, `bpy.ops.image.new`, the OpenEXR codec and 32-bit depth settings, `save_render` and `images.remove`. The channel buffer of a new image is the parameter `newImage`, and the saved file is the returned buffer.
- The operator class, `poll` and `execute`, `ExportHelper`, `menu_func`, `register` and `unregister`, the `langs` translations and `bl_info` are left out because they are UI registration.
- The debug `print`s, the unused timer import and the hard-coded call at direct-model-exporter.py:229-230 are left out. Apart from direct-model-exporter.py:28 (next line), the prints only write text and do not change what is saved.
- Container.ExportDirect: direct-model-exporter.py:28 prints `"%x" % data[0]` before anything else, so it raises on an empty payload and on a first entry that is a float. The model requires a non-empty payload. It cannot state the int/float condition, because `Num(real)` does not tell a Python int from a float. The only caller puts the integer magic word `0x00564f59` in that slot (`Exporter.EncodedFirstEntryIsMagic`), so whole-mesh exports are unaffected.
- IEEE-754 bit patterns, float32 storage and rounding are left out. NaN and +Infinity are symbolic values. Coordinates and magic words are exact reals, because the code does no float arithmetic.
- Input positions, normals and UVs are finite reals, so a NaN coordinate in the mesh itself is not modelled.
- MeshFlatten.Flatten: requires every polygon to have at least three indices, one UV per corner and every index in range. Blender guarantees all three. The source's `indices[2]` would raise on a smaller polygon, and `zip` would silently truncate a length mismatch; neither is modelled.
- Triangulation is left out: the code takes the first three indices of each polygon and nothing more.
- Exporter.ExportActiveMeshDirect: states the image side and that the saved buffer agrees with the payload where both have entries, but not the untouched tail of the buffer; `Container.ExportDirect` states that tail.
- The host's behaviour on a `(-1, -1)` image request in the direct revision is unknown, since Blender would likely refuse it. `newImage` may return any buffer there, and the model shows the copy stays in range regardless.
- Container.HostAllocates assumes `bpy.data.images['ExrSaveData']` finds the image that `bpy.ops.image.new` just created. If an image of that name already exists, Blender names the new one "ExrSaveData.001" and the lookup returns the older buffer, whose size may differ; the model does not cover that case.
