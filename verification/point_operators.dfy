/** The lookup-table engine of the point operators: applying a 256-entry table
    to every sample of an 8-bit image, and the integer table builders for
    brightness and contrast. */
module PointOperators {
  import opened Numeric
  import opened ImageModel

  /** Every sample of `s` is a valid index into `table`. */
  predicate Indexes(table: seq<int>, s: seq<int>)
  {
    forall k :: 0 <= k < |s| ==> 0 <= s[k] < |table|
  }

  /** The table applied to a run of samples: each sample v becomes table[v]. */
  function Lookup(table: seq<int>, s: seq<int>): (r: seq<int>)
    requires Indexes(table, s)
    ensures |r| == |s|
  {
    if s == [] then [] else [table[s[0]]] + Lookup(table, s[1..])
  }

  /** Each output sample is the table entry at the input sample at the same position. */
  lemma {:induction false} LookupAt(table: seq<int>, s: seq<int>, p: nat)
    requires Indexes(table, s) && p < |s|
    ensures Lookup(table, s)[p] == table[s[p]]
  {
    if p > 0 {
      LookupAt(table, s[1..], p - 1);
    }
  }

  /** Dropping the first k samples commutes with the lookup: no sample's
      result depends on its neighbours. */
  lemma {:induction false} LookupDrop(table: seq<int>, s: seq<int>, k: nat)
    requires Indexes(table, s) && k <= |s|
    ensures Lookup(table, s)[k..] == Lookup(table, s[k..])
  {
    if k > 0 {
      LookupDrop(table, s[1..], k - 1);
      assert s[1..][k - 1..] == s[k..];
    }
  }

  /** A table that maps every intensity to itself leaves the samples unchanged. */
  lemma {:induction false} LookupIdentity(table: seq<int>, s: seq<int>)
    requires Indexes(table, s)
    requires forall v :: 0 <= v < |table| ==> table[v] == v
    ensures Lookup(table, s) == s
  {
    if s != [] {
      LookupIdentity(table, s[1..]);
    }
  }

  /** A table with the same entry c everywhere maps every sample to c. */
  lemma {:induction false} LookupConstant(table: seq<int>, s: seq<int>, c: int)
    requires Indexes(table, s)
    requires forall v :: 0 <= v < |table| ==> table[v] == c
    ensures Lookup(table, s) == seq(|s|, _ => c)
  {
    if s != [] {
      LookupConstant(table, s[1..], c);
      assert seq(|s|, _ => c) == [c] + seq(|s| - 1, _ => c);
    }
  }

  /** Channel c of interleaved samples with `channels` channels per pixel. */
  function ChannelPlane(s: seq<int>, channels: nat, c: nat): (plane: seq<int>)
    requires c < channels
    decreases |s|
  {
    if |s| < channels then [] else [s[c]] + ChannelPlane(s[channels..], channels, c)
  }

  /** Every sample of a channel plane is a sample of the interleaved run. */
  lemma {:induction false} ChannelPlaneIndexes(table: seq<int>, s: seq<int>, channels: nat, c: nat)
    requires Indexes(table, s) && c < channels
    ensures Indexes(table, ChannelPlane(s, channels, c))
    decreases |s|
  {
    if |s| >= channels {
      ChannelPlaneIndexes(table, s[channels..], channels, c);
    }
  }

  /** The table acts on each channel of a colour image alone and in the same
      way: channel c of the output is the lookup of channel c of the input. */
  lemma {:induction false} LookupPerChannel(table: seq<int>, s: seq<int>, channels: nat, c: nat)
    requires Indexes(table, s) && c < channels
    ensures Indexes(table, ChannelPlane(s, channels, c))
    ensures ChannelPlane(Lookup(table, s), channels, c) == Lookup(table, ChannelPlane(s, channels, c))
    decreases |s|
  {
    ChannelPlaneIndexes(table, s, channels, c);
    if |s| >= channels {
      var rest := s[channels..];
      LookupAt(table, s, c);
      LookupDrop(table, s, channels);
      LookupPerChannel(table, rest, channels, c);
      var plane := [s[c]] + ChannelPlane(rest, channels, c);
      assert plane[0] == s[c] && plane[1..] == ChannelPlane(rest, channels, c);
    }
  }

  /** `apply_lut`: checks the table length, then the element types, copies the
      samples into a flat buffer, rewrites each sample v to lut[v], and gives
      the buffer the input's 2-D or 3-D shape back. */
  method ApplyLut(img: Image, lut: Lut) returns (r: Result<Image>)
    requires img.WellFormed() && lut.WellFormed()
    ensures |lut.entries| != 256 ==> r == Err(InvalidLutLength)
    ensures |lut.entries| == 256 && (lut.dtype != UInt8 || img.dtype != UInt8) ==> r == Err(NotEightBit)
    ensures lut.IsByteTable() && img.dtype == UInt8 && |img.shape| != 2 && |img.shape| != 3 ==>
              r == Err(ShapeNotUnpackable)
    ensures r.Ok? <==> lut.IsByteTable() && img.dtype == UInt8 && (|img.shape| == 2 || |img.shape| == 3)
    ensures r.Ok? ==> r.value.shape == img.shape && r.value.dtype == UInt8 && r.value.WellFormed()
    ensures r.Ok? ==> |r.value.samples| == |img.samples|
    ensures r.Ok? ==> forall p :: 0 <= p < |img.samples| ==> r.value.samples[p] == lut.entries[img.samples[p]]
    ensures r.Ok? ==> Indexes(lut.entries, img.samples) && r.value.samples == Lookup(lut.entries, img.samples)
  {
    if |lut.entries| != 256 {
      return Err(InvalidLutLength);
    }
    if lut.dtype == UInt8 && img.dtype == UInt8 {
      var size := |img.samples|;
      var modified := new int[size](k requires 0 <= k < size => img.samples[k]);
      var k := 0;
      while k < size
        invariant 0 <= k <= size
        invariant forall p :: 0 <= p < k ==> modified[p] == lut.entries[img.samples[p]]
        invariant forall p :: k <= p < size ==> modified[p] == img.samples[p]
      {
        modified[k] := lut.entries[modified[k]];
        k := k + 1;
      }
      if |img.shape| == 2 || |img.shape| == 3 {
        assert Indexes(lut.entries, img.samples);
        forall p | 0 <= p < size
          ensures modified[p] == Lookup(lut.entries, img.samples)[p]
        {
          LookupAt(lut.entries, img.samples, p);
        }
        r := Ok(Image(img.shape, UInt8, modified[..]));
      } else {
        r := Err(ShapeNotUnpackable);
      }
    } else {
      r := Err(NotEightBit);
    }
  }

  /** `adjust_brightness`: entry i is i + offset, saturated to [0, 255]. */
  function AdjustBrightness(offset: int): (lut: Lut)
    ensures lut.IsByteTable()
    ensures forall i :: 0 <= i < 256 ==>
              (IsByte(i + offset) ==> lut.entries[i] == i + offset) &&
              (i + offset > ByteMax ==> lut.entries[i] == ByteMax) &&
              (i + offset < 0 ==> lut.entries[i] == 0)
  {
    var entries := seq(256, i => ClampByte(i + offset));
    assert forall i :: 0 <= i < 256 ==> entries[i] == ClampByte(i + offset);
    Lut(UInt8, entries)
  }

  /** A zero offset gives a table that leaves every 8-bit image unchanged. */
  lemma BrightnessZeroIsIdentity(img: Image)
    requires img.WellFormed() && img.dtype == UInt8
    ensures Indexes(AdjustBrightness(0).entries, img.samples)
    ensures Lookup(AdjustBrightness(0).entries, img.samples) == img.samples
  {
    LookupIdentity(AdjustBrightness(0).entries, img.samples);
  }

  /** Offsets of 255 or more turn every sample white; offsets of -255 or
      less turn every sample black. */
  lemma BrightnessSaturates(img: Image, offset: int)
    requires img.WellFormed() && img.dtype == UInt8
    requires offset >= ByteMax || offset <= -ByteMax
    ensures Indexes(AdjustBrightness(offset).entries, img.samples)
    ensures offset >= ByteMax ==> Lookup(AdjustBrightness(offset).entries, img.samples) == seq(|img.samples|, _ => ByteMax)
    ensures offset <= -ByteMax ==> Lookup(AdjustBrightness(offset).entries, img.samples) == seq(|img.samples|, _ => 0)
  {
    var table := AdjustBrightness(offset).entries;
    LookupConstant(table, img.samples, if offset >= ByteMax then ByteMax else 0);
  }

  /** The mean brightness `adjust_contrast` computes: the first moment of the
      histogram over its total, truncated. */
  function MeanBrightness(hist: seq<nat>): (b: int)
    requires Sum(hist) > 0
    ensures 0 <= b <= |hist| - 1
    ensures b * Sum(hist) <= Moment(hist) < (b + 1) * Sum(hist)
  {
    MomentBound(hist);
    QuotientBound(Moment(hist), Sum(hist), |hist| - 1);
    Moment(hist) / Sum(hist)
  }

  /** The contrast mapping before the byte cast, scale * i + (1 - scale) * b:
      it multiplies each intensity's distance from b by `scale`. */
  function ContrastRaw(scale: real, b: int, i: int): (raw: real)
    ensures raw - b as real == scale * (i - b) as real
  {
    scale * i as real + (1.0 - scale) * b as real
  }

  /** `adjust_contrast`: rejects a histogram that is not 256 long and a
      negative scale, fails on an empty histogram (the mean is 0/0), and
      otherwise stretches each intensity away from the mean brightness by
      `scale`, clamps to [0, 255] and truncates to a byte. */
  function AdjustContrast(scale: real, hist: seq<nat>): (r: Result<Lut>)
    ensures |hist| != 256 || scale < 0.0 ==> r == Err(InvalidContrastArgs)
    ensures |hist| == 256 && scale >= 0.0 && Sum(hist) == 0 ==> r == Err(NaNBrightness)
    ensures r.Ok? <==> |hist| == 256 && scale >= 0.0 && Sum(hist) > 0
    ensures r.Ok? ==> r.value.IsByteTable()
    ensures r.Ok? ==> forall i :: 0 <= i < 256 ==>
              var raw := ContrastRaw(scale, MeanBrightness(hist), i);
              (0.0 <= raw <= ByteMax as real ==> r.value.entries[i] == raw.Floor) &&
              (raw > ByteMax as real ==> r.value.entries[i] == ByteMax) &&
              (raw < 0.0 ==> r.value.entries[i] == 0)
  {
    if |hist| != 256 || scale < 0.0 then
      Err(InvalidContrastArgs)
    else if Sum(hist) == 0 then
      Err(NaNBrightness)
    else
      var b := MeanBrightness(hist);
      Ok(Lut(UInt8, seq(256, i => Truncate(ClampReal(ContrastRaw(scale, b, i))))))
  }

  /** A scale of 1 gives the identity table, whatever the histogram. */
  lemma ContrastUnitScaleIsIdentity(hist: seq<nat>)
    requires |hist| == 256 && Sum(hist) > 0
    ensures AdjustContrast(1.0, hist).Ok?
    ensures forall i :: 0 <= i < 256 ==> AdjustContrast(1.0, hist).value.entries[i] == i
  {
  }

  /** A scale of 0 flattens the table to the mean brightness. */
  lemma ContrastZeroScaleFlattens(hist: seq<nat>)
    requires |hist| == 256 && Sum(hist) > 0
    ensures AdjustContrast(0.0, hist).Ok?
    ensures forall i :: 0 <= i < 256 ==> AdjustContrast(0.0, hist).value.entries[i] == MeanBrightness(hist)
  {
  }

  /** The mean brightness b is a fixed point of the table at every scale:
      the pivot the contrast is stretched around maps to itself. */
  lemma ContrastFixesMean(scale: real, hist: seq<nat>)
    requires |hist| == 256 && scale >= 0.0 && Sum(hist) > 0
    ensures AdjustContrast(scale, hist).Ok?
    ensures AdjustContrast(scale, hist).value.entries[MeanBrightness(hist)] == MeanBrightness(hist)
  {
  }

  /** A non-negative scale never reorders intensities. */
  lemma ContrastMonotone(scale: real, hist: seq<nat>, i: int, j: int)
    requires |hist| == 256 && scale >= 0.0 && Sum(hist) > 0
    requires 0 <= i <= j < 256
    ensures AdjustContrast(scale, hist).Ok?
    ensures AdjustContrast(scale, hist).value.entries[i] <= AdjustContrast(scale, hist).value.entries[j]
  {
    var b := MeanBrightness(hist);
    assert scale * (j - i) as real >= 0.0;
    assert ContrastRaw(scale, b, i) <= ContrastRaw(scale, b, j);
  }

  /** One count in every bin: the mean 127.5 truncates to 127, and a scale of 2
      gives entry i = clamp(2i - 127, 0, 255). */
  lemma ContrastUniformExample()
    ensures MeanBrightness(seq(256, _ => 1)) == 127
    ensures AdjustContrast(2.0, seq(256, _ => 1)).Ok?
    ensures forall i :: 0 <= i < 256 ==> AdjustContrast(2.0, seq(256, _ => 1)).value.entries[i] == ClampByte(2 * i - 127)
  {
    var hist: seq<nat> := seq(256, _ => 1);
    OnesSumAndMoment(256);
    assert Moment(hist) == 32640;
    forall i | 0 <= i < 256
      ensures AdjustContrast(2.0, hist).value.entries[i] == ClampByte(2 * i - 127)
    {
      assert ContrastRaw(2.0, 127, i) == (2 * i - 127) as real;
    }
  }
}
