/** Histogram equalisation: the mapping `read_image` derives from a 256-bin
    histogram (total count, probability mass, cumulative distribution, scaled
    and cast to bytes) and its application to the image through `apply_lut`. */
module EqualizeImage {
  import opened Numeric
  import opened ImageModel
  import opened PointOperators

  /** The accumulator loop that totals the histogram into `pixels`. */
  method CountPixels(hist: seq<nat>) returns (pixels: nat)
    requires |hist| == 256
    ensures pixels == Sum(hist)
  {
    pixels := 0;
    for intensity := 0 to 256
      invariant pixels == Sum(hist[..intensity])
    {
      SumPrefixStep(hist, intensity);
      pixels := pixels + hist[intensity];
    }
    assert hist[..256] == hist;
  }

  /** `m` is the share of `pixels` that `count` pixels make up. */
  predicate IsShare(m: real, count: nat, pixels: nat)
  {
    0.0 <= m && m * pixels as real == count as real
  }

  /** `hist / pixels`: the fraction of all pixels in each bin. */
  function Pmf(hist: seq<nat>, pixels: nat): (pmf: seq<real>)
    requires pixels > 0
    ensures |pmf| == |hist|
    ensures forall i :: 0 <= i < |hist| ==> IsShare(pmf[i], hist[i], pixels)
  {
    seq(|hist|, i requires 0 <= i < |hist| => hist[i] as real / pixels as real)
  }

  /** `np.cumsum`: entry i is the total of entries 0..i, so the last entry
      is the total of all of them. */
  function CumSum(p: seq<real>): (c: seq<real>)
    ensures |c| == |p|
    ensures |p| > 0 ==> c[|p| - 1] == RealSum(p)
  {
    assert |p| > 0 ==> p[..|p|] == p;
    seq(|p|, i requires 0 <= i < |p| => RealSum(p[..i + 1]))
  }

  /** The equalisation table: the cumulative distribution scaled by 255,
      clamped to [0, 255] and cast to uint8. */
  function EqualizationLut(hist: seq<nat>, pixels: nat): (lut: Lut)
    requires |hist| == 256 && pixels > 0
    ensures lut.IsByteTable()
  {
    var cdf := CumSum(Pmf(hist, pixels));
    var entries := seq(256, i requires 0 <= i < 256 => Truncate(ClampReal(cdf[i] * ByteMax as real)));
    assert forall i :: 0 <= i < 256 ==> entries[i] == Truncate(ClampReal(cdf[i] * ByteMax as real));
    Lut(UInt8, entries)
  }

  /** The cumulative sum starts at the first entry and grows by one entry at a time. */
  lemma CumSumIsRunningSum(p: seq<real>, i: nat)
    requires i < |p|
    ensures |CumSum(p)| == |p|
    ensures i == 0 ==> CumSum(p)[i] == p[0]
    ensures i > 0 ==> CumSum(p)[i] == CumSum(p)[i - 1] + p[i]
  {
    assert p[..i + 1][..i] == p[..i];
    if i == 0 {
      assert RealSum(p[..1]) == RealSum(p[..1][..0]) + p[0];
      assert p[..1][..0] == [];
    }
  }

  /** With non-negative counts the cumulative distribution never decreases. */
  lemma {:induction false} CdfMonotone(hist: seq<nat>, pixels: nat, i: nat, j: nat)
    requires pixels > 0 && i <= j < |hist|
    ensures CumSum(Pmf(hist, pixels))[i] <= CumSum(Pmf(hist, pixels))[j]
  {
    if i < j {
      CdfMonotone(hist, pixels, i, j - 1);
      CumSumIsRunningSum(Pmf(hist, pixels), j);
      assert Pmf(hist, pixels)[j] >= 0.0;
    }
  }

  /** A prefix of the mass function totals the same prefix of the counts over the pixel count. */
  lemma {:induction false} PmfPrefixSum(hist: seq<nat>, pixels: nat, k: nat)
    requires pixels > 0 && k <= |hist|
    ensures RealSum(Pmf(hist, pixels)[..k]) == Sum(hist[..k]) as real / pixels as real
  {
    var p := Pmf(hist, pixels);
    if k == 0 {
      assert p[..0] == [] && hist[..0] == [];
    } else {
      PmfPrefixSum(hist, pixels, k - 1);
      assert p[..k][..k - 1] == p[..k - 1];
      SumPrefixStep(hist, k - 1);
      assert p[k - 1] == hist[k - 1] as real / pixels as real;
      assert RealSum(p[..k]) == RealSum(p[..k - 1]) + hist[k - 1] as real / pixels as real;
    }
  }

  /** In exact arithmetic the cumulative distribution at i is the count of
      pixels at intensities up to i over the pixel count. */
  lemma CdfExact(hist: seq<nat>, pixels: nat, i: nat)
    requires pixels > 0 && i < |hist|
    ensures CumSum(Pmf(hist, pixels))[i] == Sum(hist[..i + 1]) as real / pixels as real
  {
    PmfPrefixSum(hist, pixels, i + 1);
  }

  /** With the true pixel count the cumulative distribution ends at exactly 1. */
  lemma CdfEndsAtOne(hist: seq<nat>)
    requires |hist| == 256 && Sum(hist) > 0
    ensures CumSum(Pmf(hist, Sum(hist)))[255] == 1.0
  {
    var total := Sum(hist);
    CdfExact(hist, total, 255);
    assert hist[..255 + 1] == hist;
    assert total as real / total as real == 1.0;
  }

  /** Scaled by 255, the cumulative distribution at i is an exact quotient
      that lies within [0, 255], so neither clamp changes it. */
  lemma ScaledCdfInRange(hist: seq<nat>, i: nat)
    requires |hist| == 256 && Sum(hist) > 0 && i < 256
    ensures CumSum(Pmf(hist, Sum(hist)))[i] * ByteMax as real == (ByteMax * Sum(hist[..i + 1])) as real / Sum(hist) as real
    ensures 0.0 <= CumSum(Pmf(hist, Sum(hist)))[i] * ByteMax as real <= ByteMax as real
  {
    SumPrefixMonotone(hist, i + 1, 256);
    assert hist[..256] == hist;
    CdfExact(hist, Sum(hist), i);
    ScaledShare(Sum(hist[..i + 1]), Sum(hist));
  }

  /** Entry i of the table is floor(255 * (h[0] + ... + h[i]) / total). */
  lemma EqualizationExact(hist: seq<nat>, i: nat)
    requires |hist| == 256 && Sum(hist) > 0 && i < 256
    ensures EqualizationLut(hist, Sum(hist)).entries[i] == (ByteMax * Sum(hist[..i + 1])) / Sum(hist)
  {
    var total := Sum(hist);
    var x := CumSum(Pmf(hist, total))[i] * ByteMax as real;
    assert EqualizationLut(hist, total).entries[i] == Truncate(ClampReal(x));
    ScaledCdfInRange(hist, i);
    FloorOfQuotient(ByteMax * Sum(hist[..i + 1]), total);
  }

  /** Equalisation never reorders intensities: i <= j implies lut[i] <= lut[j]. */
  lemma EqualizationMonotone(hist: seq<nat>, pixels: nat, i: nat, j: nat)
    requires |hist| == 256 && pixels > 0 && i <= j < 256
    ensures EqualizationLut(hist, pixels).entries[i] <= EqualizationLut(hist, pixels).entries[j]
  {
    CdfMonotone(hist, pixels, i, j);
  }

  /** Intensities below the first non-empty bin map to black. */
  lemma EqualizationZeroBelowFirst(hist: seq<nat>, pixels: nat, i: nat)
    requires |hist| == 256 && pixels > 0 && i < 256
    requires forall j :: 0 <= j <= i ==> hist[j] == 0
    ensures EqualizationLut(hist, pixels).entries[i] == 0
  {
    CdfExact(hist, pixels, i);
    SumZeroPrefix(hist, i + 1);
  }

  /** Intensities at or above the last non-empty bin map to white. */
  lemma EqualizationFullFromLast(hist: seq<nat>, i: nat)
    requires |hist| == 256 && Sum(hist) > 0 && i < 256
    requires forall j :: i < j < 256 ==> hist[j] == 0
    ensures EqualizationLut(hist, Sum(hist)).entries[i] == ByteMax
  {
    SumZeroTail(hist, i + 1);
    EqualizationExact(hist, i);
    MulDivCancel(ByteMax, Sum(hist));
  }

  /** A histogram with all of its 100 pixels at intensity 128. */
  function SpikeAt128(): (hist: seq<nat>)
  {
    seq(256, i => if i == 128 then 100 else 0)
  }

  /** All 100 pixels at intensity 128: the table is a step from black to white at 128. */
  lemma EqualizationStepExample()
    ensures Sum(SpikeAt128()) == 100
    ensures forall i :: 0 <= i < 256 ==> EqualizationLut(SpikeAt128(), 100).entries[i] == if i < 128 then 0 else ByteMax
  {
    var hist := SpikeAt128();
    SumZeroPrefix(hist, 128);
    SumPrefixStep(hist, 128);
    SumZeroTail(hist, 129);
    forall i | 0 <= i < 256
      ensures EqualizationLut(hist, 100).entries[i] == if i < 128 then 0 else ByteMax
    {
      if i < 128 {
        EqualizationZeroBelowFirst(hist, 100, i);
      } else {
        EqualizationFullFromLast(hist, i);
      }
    }
  }

  /** The equalisation step of `read_image`: total the histogram, build the
      table, and apply it to the greyscale 8-bit image. */
  method Equalize(img: Image, hist: seq<nat>) returns (r: Result<Image>)
    requires img.WellFormed() && img.dtype == UInt8 && |img.shape| == 2
    requires |hist| == 256
    ensures r.Err? <==> Sum(hist) == 0
    ensures r.Err? ==> r.error == EmptyHistogram
    ensures r.Ok? ==> r.value.shape == img.shape && r.value.dtype == UInt8 && r.value.WellFormed()
    ensures Sum(hist) > 0 ==> Indexes(EqualizationLut(hist, Sum(hist)).entries, img.samples)
    ensures Sum(hist) > 0 ==> r.Ok? && r.value.samples == Lookup(EqualizationLut(hist, Sum(hist)).entries, img.samples)
    ensures Sum(hist) > 0 ==> forall p :: 0 <= p < |img.samples| ==>
              r.value.samples[p] == EqualizationLut(hist, Sum(hist)).entries[img.samples[p]]
    ensures r.Ok? ==> forall p, q :: 0 <= p < |img.samples| && 0 <= q < |img.samples| && img.samples[p] <= img.samples[q] ==>
              r.value.samples[p] <= r.value.samples[q]
  {
    var pixels := CountPixels(hist);
    if pixels == 0 {
      return Err(EmptyHistogram);
    }
    var lut := EqualizationLut(hist, pixels);
    r := ApplyLut(img, lut);
    forall p, q | 0 <= p < |img.samples| && 0 <= q < |img.samples| && img.samples[p] <= img.samples[q]
      ensures r.value.samples[p] <= r.value.samples[q]
    {
      EqualizationMonotone(hist, pixels, img.samples[p], img.samples[q]);
    }
  }
}
