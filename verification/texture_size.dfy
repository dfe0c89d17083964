/** best_texture_size_for in its two revisions: the smallest power-of-two
    square side `s` with `s * s > size`, or the sentinel [-1, -1]. */
module TextureSize {

  /** The [width, height] pair the source returns. */
  datatype Dimensions = Dimensions(width: int, height: int)

  /** The source's failure sentinel. */
  const ErrorValue: Dimensions := Dimensions(-1, -1)

  /** Default `max_length_size`: the side bound, exclusive. */
  const DefaultMaxLength: int := 2048

  predicate IsPow2(n: int)
    decreases if n > 0 then n else 0
  {
    n == 1 || (n > 1 && n % 2 == 0 && IsPow2(n / 2))
  }

  /** `1 << k`. */
  function Pow2(k: nat): (r: nat)
    ensures r >= 1
  {
    if k == 0 then 1 else 2 * Pow2(k - 1)
  }

  lemma {:induction false} Pow2IsPow2(k: nat)
    ensures IsPow2(Pow2(k))
  {
    if k > 0 {
      Pow2IsPow2(k - 1);
      assert Pow2(k) / 2 == Pow2(k - 1);
    }
  }

  /** Consecutive powers of two are a factor two apart. */
  lemma {:induction false} Pow2Gap(s: int, t: int)
    requires IsPow2(s) && IsPow2(t) && s < t
    ensures 2 * s <= t
    decreases t
  {
    if s > 1 {
      Pow2Gap(s / 2, t / 2);
    }
  }

  /** `r` is what the search must answer for `size` under the exclusive side
      bound `maxLength`: the smallest fitting power of two below the bound,
      or the sentinel exactly when no power of two below the bound fits. */
  ghost predicate IsBestFit(size: int, maxLength: int, r: Dimensions) {
    || (r == ErrorValue && forall t :: IsPow2(t) && t < maxLength ==> t * t <= size)
    || (&& r.width == r.height
        && IsPow2(r.width)
        && r.width < maxLength
        && r.width * r.width > size
        && forall t :: IsPow2(t) && t < r.width ==> t * t <= size)
  }

  /** At most one answer meets IsBestFit. */
  lemma BestFitUnique(size: int, maxLength: int, r1: Dimensions, r2: Dimensions)
    requires IsBestFit(size, maxLength, r1) && IsBestFit(size, maxLength, r2)
    ensures r1 == r2
  {
    if r1 != ErrorValue && r2 != ErrorValue {
      assert !(r1.width < r2.width) && !(r2.width < r1.width);
    }
  }

  // ---------------------------------------------------------------------
  // The voyage_direct_model_exporter.py revision: a doubling while loop

  /** The while loop of the voyage revision, from side `s` on. */
  function SearchFrom(s: int, size: int, maxLength: int): Dimensions
    requires s >= 1
    decreases maxLength - s
  {
    if s < maxLength then
      if s * s > size then Dimensions(s, s) else SearchFrom(2 * s, size, maxLength)
    else ErrorValue
  }

  function VoyageBestSize(size: int, maxLength: int): Dimensions {
    SearchFrom(1, size, maxLength)
  }

  lemma {:induction false} SearchFromIsBestFit(s: int, size: int, maxLength: int)
    requires IsPow2(s)
    requires forall t :: IsPow2(t) && t < s ==> t * t <= size
    ensures IsBestFit(size, maxLength, SearchFrom(s, size, maxLength))
    decreases maxLength - s
  {
    if s < maxLength && s * s <= size {
      assert IsPow2(2 * s) by { assert (2 * s) / 2 == s; }
      forall t | IsPow2(t) && t < 2 * s ensures t * t <= size {
        if s < t {
          Pow2Gap(s, t);
        }
      }
      SearchFromIsBestFit(2 * s, size, maxLength);
    }
  }

  /** The voyage revision's answer is the best fit below the bound. */
  lemma VoyageBestSizeIsBestFit(size: int, maxLength: int)
    ensures IsBestFit(size, maxLength, VoyageBestSize(size, maxLength))
  {
    SearchFromIsBestFit(1, size, maxLength);
  }

  /** The voyage revision's search, as the source writes it. */
  method BestTextureSizeFor(size: nat, maxLength: int) returns (r: Dimensions)
    ensures IsBestFit(size, maxLength, r)
    ensures r == VoyageBestSize(size, maxLength)
  {
    var squareLength := 1;
    while squareLength < maxLength
      invariant IsPow2(squareLength)
      invariant forall t :: IsPow2(t) && t < squareLength ==> t * t <= size
      invariant SearchFrom(squareLength, size, maxLength) == VoyageBestSize(size, maxLength)
      decreases maxLength - squareLength
    {
      if squareLength * squareLength > size {
        VoyageBestSizeIsBestFit(size, maxLength);
        return Dimensions(squareLength, squareLength);
      }
      forall t | IsPow2(t) && t < 2 * squareLength ensures t * t <= size {
        if squareLength < t {
          Pow2Gap(squareLength, t);
        }
      }
      assert IsPow2(2 * squareLength) by { assert (2 * squareLength) / 2 == squareLength; }
      squareLength := 2 * squareLength;
    }
    VoyageBestSizeIsBestFit(size, maxLength);
    r := ErrorValue;
  }

  // ---------------------------------------------------------------------
  // The direct-model-exporter.py revision: a scan over a table of areas

  /** The areas `(1 << i) * (1 << i)` for i in 0..11, as the source lists them. */
  const Sizes: seq<int> := [
    1 * 1, 2 * 2, 4 * 4, 8 * 8, 16 * 16, 32 * 32, 64 * 64,
    128 * 128, 256 * 256, 512 * 512, 1024 * 1024, 2048 * 2048]

  function ScanSizes(size: int, i: nat): Dimensions
    decreases |Sizes| - i
  {
    if i < |Sizes| then
      if Sizes[i] > size then Dimensions(Pow2(i), Pow2(i)) else ScanSizes(size, i + 1)
    else ErrorValue
  }

  function DirectBestSize(size: int): Dimensions {
    ScanSizes(size, 0)
  }

  lemma Pow2Table(i: nat)
    requires i < |Sizes|
    ensures Sizes[i] == Pow2(i) * Pow2(i)
    ensures Pow2(i) <= 2048
  {
    assert Pow2(0) == 1;
    assert Pow2(1) == 2;
    assert Pow2(2) == 4;
    assert Pow2(3) == 8;
    assert Pow2(4) == 16;
    assert Pow2(5) == 32;
    assert Pow2(6) == 64;
    assert Pow2(7) == 128;
    assert Pow2(8) == 256;
    assert Pow2(9) == 512;
    assert Pow2(10) == 1024;
    assert Pow2(11) == 2048;
  }

  lemma {:induction false} ScanSizesIsSearch(size: int, i: nat)
    requires i <= |Sizes|
    ensures ScanSizes(size, i) == SearchFrom(Pow2(i), size, 4096)
    decreases |Sizes| - i
  {
    if i < |Sizes| {
      Pow2Table(i);
      ScanSizesIsSearch(size, i + 1);
    } else {
      assert Pow2(12) == 4096 by { Pow2Table(11); }
    }
  }

  /** The table scan is the voyage search with its exclusive bound raised to
      4096, i.e. with side 2048 included. */
  lemma DirectIsVoyageWithInclusive2048(size: int)
    ensures DirectBestSize(size) == VoyageBestSize(size, 2 * DefaultMaxLength)
    ensures IsBestFit(size, 2 * DefaultMaxLength, DirectBestSize(size))
  {
    ScanSizesIsSearch(size, 0);
    VoyageBestSizeIsBestFit(size, 2 * DefaultMaxLength);
  }

  // ---------------------------------------------------------------------
  // How the two revisions compare under their defaults

  /** A power of two below 2 * s, for a power of two s, is at most s. */
  lemma Pow2Below(s: int, t: int)
    requires IsPow2(s) && IsPow2(t) && t < 2 * s
    ensures t <= s
  {
    if s < t {
      Pow2Gap(s, t);
    }
  }

  lemma Pow2Constants()
    ensures IsPow2(1024) && IsPow2(2048)
  {
    Pow2Table(10);
    Pow2Table(11);
    Pow2IsPow2(10);
    Pow2IsPow2(11);
  }

  /** Under the exclusive bound 2 * m, for a power of two m, the search fails
      exactly when size >= m * m, and any side it finds is at most m. */
  lemma BoundedSearchLimit(size: int, m: int)
    requires IsPow2(m)
    ensures VoyageBestSize(size, 2 * m) == ErrorValue <==> size >= m * m
    ensures VoyageBestSize(size, 2 * m) != ErrorValue ==> VoyageBestSize(size, 2 * m).width <= m
  {
    var r := VoyageBestSize(size, 2 * m);
    VoyageBestSizeIsBestFit(size, 2 * m);
    if r != ErrorValue {
      Pow2Below(m, r.width);
      SquareMonotone(r.width, m);
    } else {
      assert m * m <= size;
    }
  }

  lemma SquareMonotone(a: int, b: int)
    requires 0 <= a <= b
    ensures a * a <= b * b
  {
    assert a * a <= a * b <= b * b;
  }

  /** Raising the bound does not change an answer already found. */
  lemma RaisingBoundKeepsAnswer(size: int, a: int, b: int)
    requires a <= b
    requires VoyageBestSize(size, a) != ErrorValue
    ensures VoyageBestSize(size, b) == VoyageBestSize(size, a)
  {
    var r := VoyageBestSize(size, a);
    VoyageBestSizeIsBestFit(size, a);
    VoyageBestSizeIsBestFit(size, b);
    assert IsBestFit(size, b, r);
    BestFitUnique(size, b, r, VoyageBestSize(size, b));
  }

  /** Voyage revision: sizing fails exactly from 1024 * 1024 entries on, and
      a successful answer is never above 1024. */
  lemma VoyageDefaultBound(size: int)
    ensures VoyageBestSize(size, DefaultMaxLength) == ErrorValue <==> size >= 1024 * 1024
    ensures VoyageBestSize(size, DefaultMaxLength) != ErrorValue ==>
      VoyageBestSize(size, DefaultMaxLength).width <= 1024
  {
    Pow2Constants();
    BoundedSearchLimit(size, 1024);
  }

  /** Direct revision: sizing fails exactly from 2048 * 2048 entries on. */
  lemma DirectDefaultBound(size: int)
    ensures DirectBestSize(size) == ErrorValue <==> size >= 2048 * 2048
    ensures DirectBestSize(size) != ErrorValue ==> DirectBestSize(size).width <= 2048
  {
    Pow2Constants();
    DirectIsVoyageWithInclusive2048(size);
    BoundedSearchLimit(size, 2048);
  }

  /** Below 1024 * 1024 entries the two revisions give the same answer. */
  lemma RevisionsAgreeBelowMegapixel(size: int)
    requires size < 1024 * 1024
    ensures VoyageBestSize(size, DefaultMaxLength) == DirectBestSize(size)
  {
    VoyageDefaultBound(size);
    DirectIsVoyageWithInclusive2048(size);
    RaisingBoundKeepsAnswer(size, DefaultMaxLength, 2 * DefaultMaxLength);
  }

  /** Between 1024 * 1024 and 2048 * 2048 entries only the direct revision
      finds a side, and that side is 2048. */
  lemma RevisionsDifferFromMegapixel(size: int)
    requires 1024 * 1024 <= size < 2048 * 2048
    ensures VoyageBestSize(size, DefaultMaxLength) == ErrorValue
    ensures DirectBestSize(size) == Dimensions(2048, 2048)
  {
    VoyageDefaultBound(size);
    DirectDefaultBound(size);
    DirectIsVoyageWithInclusive2048(size);
    var d := DirectBestSize(size);
    Pow2Constants();
    if d.width < 2048 {
      Pow2Below(1024, d.width);
    }
  }
}
