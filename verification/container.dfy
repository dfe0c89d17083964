/** generate_exr_with_data in its two revisions: size the square float image
    for the payload, then copy the payload into the prefix of the image's
    flat RGBA channel buffer. The host's image allocation and the file save
    are outside the model; `newImage(w, h)` stands for the channel buffer
    the host hands back for a new w-by-h float image. */
module Container {
  import opened Layout
  import opened TextureSize

  /** What an export produces: nothing (the voyage revision's `return False`),
      or the image dimensions and the channel buffer that is saved. */
  datatype Export = Aborted | Saved(width: int, height: int, pixels: seq<Value>)

  /** The host gives a buffer of width * height * 4 channels for any image
      with positive sides. */
  ghost predicate HostAllocates(newImage: (int, int) -> seq<Value>) {
    forall w: int, h: int :: 0 < w && 0 < h ==> |newImage(w, h)| == w * h * 4
  }

  function Min(a: int, b: int): int {
    if a <= b then a else b
  }

  /** The slice assignment `pixels[0:len(data)] = data`. */
  function CopyPrefix(pixels: seq<Value>, data: seq<Value>): seq<Value>
    requires |data| <= |pixels|
  {
    data + pixels[|data|..]
  }

  /** The loop `for i in range(n): pixels[i] = data[i]`. */
  function CopyFirst(pixels: seq<Value>, data: seq<Value>, n: nat): (r: seq<Value>)
    requires n <= |pixels| && n <= |data|
    ensures |r| == |pixels|
    ensures forall i :: 0 <= i < n ==> r[i] == data[i]
    ensures forall i :: n <= i < |pixels| ==> r[i] == pixels[i]
  {
    if n == 0 then pixels else CopyFirst(pixels, data, n - 1)[n - 1 := data[n - 1]]
  }

  /** The element-by-element loop and the slice assignment agree whenever the
      payload fits. */
  lemma CopyFirstIsCopyPrefix(pixels: seq<Value>, data: seq<Value>)
    requires |data| <= |pixels|
    ensures CopyFirst(pixels, data, |data|) == CopyPrefix(pixels, data)
  {
    var a, b := CopyFirst(pixels, data, |data|), CopyPrefix(pixels, data);
    assert forall i :: 0 <= i < |a| ==> a[i] == b[i];
  }

  /** The voyage revision: abort before any write when sizing fails;
      otherwise the payload fills the prefix of the new image and the rest
      of the host's buffer is left as allocated. */
  function ExportVoyage(data: seq<Value>, newImage: (int, int) -> seq<Value>): (r: Export)
    requires HostAllocates(newImage)
    ensures r.Aborted? <==> |data| >= 1024 * 1024
    ensures r.Saved? ==> Dimensions(r.width, r.height) == VoyageBestSize(|data|, DefaultMaxLength)
    ensures r.Saved? ==>
      && r.width == r.height
      && IsPow2(r.width) && r.width <= 1024
      && |data| < r.width * r.height
      && |r.pixels| == |newImage(r.width, r.height)| == r.width * r.height * 4
      && r.pixels[..|data|] == data
      && r.pixels[|data|..] == newImage(r.width, r.height)[|data|..]
  {
    var dims := VoyageBestSize(|data|, DefaultMaxLength);
    if dims.width == -1 then Aborted
    else
      VoyageFacts(|data|);
      var pixels := newImage(dims.width, dims.height);
      assert |pixels| == dims.width * dims.height * 4;
      Saved(dims.width, dims.height, CopyPrefix(pixels, data))
  }

  /** The facts about the voyage sizing that ExportVoyage relies on. */
  lemma VoyageFacts(size: nat)
    ensures var d := VoyageBestSize(size, DefaultMaxLength);
      && (d.width == -1 <==> size >= 1024 * 1024)
      && (d.width != -1 ==>
            d.width == d.height && IsPow2(d.width) && 0 < d.width <= 1024
            && size < d.width * d.height <= d.width * d.height * 4)
  {
    VoyageDefaultBound(size);
    VoyageBestSizeIsBestFit(size, DefaultMaxLength);
  }

  /** The direct revision: a sizing failure does not stop the export, the
      host is asked for a (-1, -1) image, and only the `min` bound keeps the
      copy inside whatever buffer comes back. Nothing is demanded of the host.
      The payload must be non-empty: the first statement prints `data[0]`. */
  function ExportDirect(data: seq<Value>, newImage: (int, int) -> seq<Value>): (r: Export)
    requires |data| > 0
    ensures r.Saved?
    ensures r.width == r.height
    ensures r.width == -1 <==> |data| >= 2048 * 2048
    ensures r.width != -1 ==> Dimensions(r.width, r.height) == DirectBestSize(|data|)
    ensures var pixels := newImage(r.width, r.height);
      && |r.pixels| == |pixels|
      && (forall i :: 0 <= i < Min(|data|, |pixels|) ==> r.pixels[i] == data[i])
      && (forall i :: Min(|data|, |pixels|) <= i < |pixels| ==> r.pixels[i] == pixels[i])
  {
    var dims := DirectBestSize(|data|);
    DirectDefaultBound(|data|);
    DirectIsVoyageWithInclusive2048(|data|);
    var pixels := newImage(dims.width, dims.height);
    Saved(dims.width, dims.height, CopyFirst(pixels, data, Min(|data|, |pixels|)))
  }

  /** In the direct revision, a host that allocates width * height * 4
      channels receives the whole payload whenever it has fewer than
      2048 * 2048 entries, which covers the range where the voyage revision
      aborts. */
  lemma DirectSavesWholePayload(data: seq<Value>, newImage: (int, int) -> seq<Value>)
    requires HostAllocates(newImage)
    requires 0 < |data| < 2048 * 2048
    ensures var r := ExportDirect(data, newImage);
      && IsPow2(r.width) && r.width <= 2048
      && |data| < r.width * r.height
      && |r.pixels| == r.width * r.height * 4
      && r.pixels[..|data|] == data
      && r.pixels[|data|..] == newImage(r.width, r.height)[|data|..]
  {
    var r := ExportDirect(data, newImage);
    DirectDefaultBound(|data|);
    DirectIsVoyageWithInclusive2048(|data|);
    assert |data| < r.width * r.height <= r.width * r.height * 4;
    var pixels := newImage(r.width, r.height);
    assert r.pixels[..|data|] == data;
    assert r.pixels[|data|..] == pixels[|data|..];
  }

  /** When the payload holds fewer than 1024 * 1024 entries, both revisions
      save the same image. */
  lemma RevisionsExportAlike(data: seq<Value>, newImage: (int, int) -> seq<Value>)
    requires HostAllocates(newImage)
    requires 0 < |data| < 1024 * 1024
    ensures ExportVoyage(data, newImage) == ExportDirect(data, newImage)
  {
    RevisionsAgreeBelowMegapixel(|data|);
    VoyageFacts(|data|);
    var d := VoyageBestSize(|data|, DefaultMaxLength);
    var pixels := newImage(d.width, d.height);
    CopyFirstIsCopyPrefix(pixels, data);
  }
}
