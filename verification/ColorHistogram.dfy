/** Soft colour histograms and their intersection (color-histogram.compare.ts), over exact reals. */
module ColorHistogram {
  import opened Common
  import opened RealSums

  const BINS := 16
  const CHANNELS := 3

  // ----- Soft binning of one channel -----

  predicate IsByte(value: nat) {
    value <= 255
  }

  /** Where a value falls on the scale of bins, 0 to 15. */
  function Position(value: nat): (pos: real)
    requires IsByte(value)
    ensures 0.0 <= pos <= 15.0
  {
    value as real / 255.0 * (BINS - 1) as real
  }

  function LowBin(value: nat): (lo: nat)
    requires IsByte(value)
    ensures lo < BINS
    ensures lo as real <= Position(value) < lo as real + 1.0
  {
    Position(value).Floor
  }

  function HighBin(value: nat): (hi: nat)
    requires IsByte(value)
    ensures hi < BINS
  {
    Min(BINS - 1, LowBin(value) + 1)
  }

  function Share(value: nat): (t: real)
    requires IsByte(value)
    ensures 0.0 <= t < 1.0
  {
    Position(value) - LowBin(value) as real
  }

  function AddTo(s: seq<real>, i: nat, w: real): (r: seq<real>)
    requires i < |s|
    ensures |r| == |s|
  {
    s[i := s[i] + w]
  }

  /** One pixel value spread over its two neighbouring bins. */
  function Soft(bins: seq<real>, value: nat): (r: seq<real>)
    requires |bins| == BINS && IsByte(value)
    ensures |r| == BINS
  {
    AddTo(AddTo(bins, LowBin(value), 1.0 - Share(value)), HighBin(value), Share(value))
  }

  /** The sum of the bin numbers weighted by their contents. */
  function Moment(bins: seq<real>): real {
    if bins == [] then 0.0
    else Moment(bins[..|bins| - 1]) + (|bins| - 1) as real * bins[|bins| - 1]
  }

  lemma {:induction false} MomentOfAdd(bins: seq<real>, i: nat, w: real)
    requires i < |bins|
    ensures Moment(AddTo(bins, i, w)) == Moment(bins) + i as real * w
  {
    var k := |bins| - 1;
    if i < k {
      assert AddTo(bins, i, w)[..k] == AddTo(bins[..k], i, w);
      MomentOfAdd(bins[..k], i, w);
    } else {
      assert AddTo(bins, i, w)[..k] == bins[..k];
      assert k as real * (bins[k] + w) == k as real * bins[k] + k as real * w;
    }
  }

  lemma SumOfAdd(bins: seq<real>, i: nat, w: real)
    requires i < |bins|
    ensures Sum(AddTo(bins, i, w)) == Sum(bins) + w
  {
    assert AddTo(bins, i, w) == bins[i := bins[i] + w];
    SumUpdate(bins, i, bins[i] + w);
  }

  lemma SplitPosition(lo: real, t: real)
    ensures lo * (1.0 - t) + (lo + 1.0) * t == lo + t
  {
  }

  lemma TwoAdds(bins: seq<real>, lo: nat, hi: nat, t: real)
    requires lo < |bins| && hi < |bins|
    ensures var r := AddTo(AddTo(bins, lo, 1.0 - t), hi, t);
      Sum(r) == Sum(bins) + 1.0 && Moment(r) == Moment(bins) + (lo as real * (1.0 - t) + hi as real * t)
  {
    var first := AddTo(bins, lo, 1.0 - t);
    SumOfAdd(bins, lo, 1.0 - t);
    SumOfAdd(first, hi, t);
    MomentOfAdd(bins, lo, 1.0 - t);
    MomentOfAdd(first, hi, t);
  }

  lemma SharesMeetPosition(value: nat)
    requires IsByte(value)
    ensures var t := Share(value);
      LowBin(value) as real * (1.0 - t) + HighBin(value) as real * t == Position(value)
  {
    var lo, t := LowBin(value), Share(value);
    SplitPosition(lo as real, t);
    if lo == BINS - 1 {
      assert t == 0.0;
    }
  }

  /** Each value adds exactly 1 to its channel, and exactly its position to the channel's moment. */
  lemma SoftConserves(bins: seq<real>, value: nat)
    requires |bins| == BINS && IsByte(value) && AllNonnegative(bins)
    ensures Sum(Soft(bins, value)) == Sum(bins) + 1.0
    ensures Moment(Soft(bins, value)) == Moment(bins) + Position(value)
    ensures AllNonnegative(Soft(bins, value))
  {
    TwoAdds(bins, LowBin(value), HighBin(value), Share(value));
    SharesMeetPosition(value);
  }

  function SoftAll(bins: seq<real>, values: seq<nat>): (r: seq<real>)
    requires |bins| == BINS && forall v | v in values :: IsByte(v)
    ensures |r| == BINS
  {
    if values == [] then bins
    else
      assert forall v | v in values[..|values| - 1] :: v in values;
      Soft(SoftAll(bins, values[..|values| - 1]), values[|values| - 1])
  }

  function Zeros(n: nat): (s: seq<real>)
    ensures |s| == n
  {
    seq(n, _ => 0.0)
  }

  lemma {:induction false} SumOfZeros(n: nat)
    ensures Sum(Zeros(n)) == 0.0 && Moment(Zeros(n)) == 0.0
  {
    if n == 0 {
    } else {
      assert Zeros(n)[..n - 1] == Zeros(n - 1);
      SumOfZeros(n - 1);
    }
  }

  function TotalPosition(values: seq<nat>): real
    requires forall v | v in values :: IsByte(v)
  {
    if values == [] then 0.0
    else
      assert forall v | v in values[..|values| - 1] :: v in values;
      TotalPosition(values[..|values| - 1]) + Position(values[|values| - 1])
  }

  /** After n values a channel holds mass n, centred where the values are. */
  lemma {:induction false} ChannelMass(values: seq<nat>)
    requires forall v | v in values :: IsByte(v)
    ensures var bins := SoftAll(Zeros(BINS), values);
      Sum(bins) == |values| as real && Moment(bins) == TotalPosition(values) && AllNonnegative(bins)
  {
    if values == [] {
      SumOfZeros(BINS);
    } else {
      var k := |values| - 1;
      assert forall v | v in values[..k] :: v in values;
      ChannelMass(values[..k]);
      SoftConserves(SoftAll(Zeros(BINS), values[..k]), values[k]);
    }
  }

  // ----- Normalisation -----

  function Normalized(bins: seq<real>): (r: seq<real>)
    ensures |r| == |bins|
  {
    if Sum(bins) <= 0.0 then bins else Scaled(bins, Sum(bins))
  }

  function Scaled(bins: seq<real>, total: real): (r: seq<real>)
    requires total > 0.0
    ensures |r| == |bins|
  {
    seq(|bins|, i requires 0 <= i < |bins| => bins[i] / total)
  }

  lemma {:induction false} SumOfScaled(bins: seq<real>, total: real)
    requires total > 0.0
    ensures Sum(Scaled(bins, total)) == Sum(bins) / total
  {
    if bins == [] {
    } else {
      var k := |bins| - 1;
      assert Scaled(bins, total)[..k] == Scaled(bins[..k], total);
      SumOfScaled(bins[..k], total);
      DivideSum(Sum(bins[..k]), bins[k], total);
    }
  }

  predicate IsDistribution(bins: seq<real>) {
    |bins| == BINS && AllNonnegative(bins) && Sum(bins) == 1.0
  }

  lemma ScaledNonnegative(bins: seq<real>, total: real)
    requires total > 0.0 && AllNonnegative(bins)
    ensures AllNonnegative(Scaled(bins, total))
  {
    forall i | 0 <= i < |bins| ensures bins[i] / total >= 0.0 {
      DivideMonotone(0.0, bins[i], total);
    }
  }

  /** Each channel of an image with at least one pixel ends up as a distribution. */
  lemma ChannelNormalizes(values: seq<nat>)
    requires values != [] && forall v | v in values :: IsByte(v)
    ensures IsDistribution(Normalized(SoftAll(Zeros(BINS), values)))
  {
    var bins := SoftAll(Zeros(BINS), values);
    ChannelMass(values);
    SumOfScaled(bins, Sum(bins));
    ScaledNonnegative(bins, Sum(bins));
    SelfQuotient(Sum(bins));
  }

  // ----- The buffer with three channels -----

  function Channel(hist: seq<real>, c: nat): (s: seq<real>)
    requires |hist| == BINS * CHANNELS && c < CHANNELS
    ensures |s| == BINS
  {
    hist[BINS * c..BINS * c + BINS]
  }

  /** Adds one value to the channel that starts at `offset`, in place. */
  method AccumulateSoft(hist: array<real>, ghost c: nat, offset: nat, value: nat)
    requires hist.Length == BINS * CHANNELS && c < CHANNELS && offset == BINS * c && IsByte(value)
    modifies hist
    ensures Channel(hist[..], c) == Soft(old(Channel(hist[..], c)), value)
    ensures forall d | 0 <= d < CHANNELS && d != c :: Channel(hist[..], d) == old(Channel(hist[..], d))
  {
    var pos := value as real / 255.0 * (BINS - 1) as real;
    var lo := pos.Floor;
    assert lo == LowBin(value);
    var hi := Min(BINS - 1, lo + 1);
    var t := pos - lo as real;
    hist[offset + lo] := hist[offset + lo] + (1.0 - t);
    hist[offset + hi] := hist[offset + hi] + t;
  }

  /** The bytes of channel `c`, pixel by pixel, of interleaved image data. */
  function Values(data: seq<nat>, channels: nat, c: nat, n: nat): (s: seq<nat>)
    requires c < channels && n * channels <= |data|
    ensures |s| == n
  {
    seq(n, i requires 0 <= i < n => ByteIndex(i, channels, c, n); data[i * channels + c])
  }

  lemma ByteIndex(i: nat, channels: nat, c: nat, n: nat)
    requires i < n && c < channels
    ensures 0 <= i * channels + c < n * channels
  {
    assert (i + 1) * channels <= n * channels;
  }

  predicate IsImage(data: seq<nat>, channels: nat, n: nat) {
    |data| == n * channels && forall i | 0 <= i < |data| :: IsByte(data[i])
  }

  function ChannelHistogram(data: seq<nat>, channels: nat, c: nat, n: nat): (s: seq<real>)
    requires IsImage(data, channels, n) && c < channels
    ensures |s| == BINS
  {
    ValuesAreBytes(data, channels, c, n, n);
    SoftAll(Zeros(BINS), Values(data, channels, c, n))
  }

  lemma ValuesAreBytes(data: seq<nat>, channels: nat, c: nat, n: nat, k: nat)
    requires IsImage(data, channels, n) && c < channels && k <= n
    ensures k * channels <= |data|
    ensures forall v | v in Values(data, channels, c, k) :: IsByte(v)
  {
    assert k * channels <= n * channels;
    forall i | 0 <= i < k ensures IsByte(Values(data, channels, c, k)[i]) {
      ByteIndex(i, channels, c, n);
    }
  }

  /** The histogram part of the colour features; None stands for the exception on grey images. */
  function Features(data: seq<nat>, channels: nat, n: nat): Option<seq<real>>
    requires IsImage(data, channels, n)
  {
    if channels < 3 then None
    else Some(Normalized(ChannelHistogram(data, channels, 0, n)) + Normalized(ChannelHistogram(data, channels, 1, n))
              + Normalized(ChannelHistogram(data, channels, 2, n)))
  }

  predicate IsHistogram(hist: seq<real>) {
    |hist| == BINS * CHANNELS && forall c | 0 <= c < CHANNELS :: IsDistribution(Channel(hist, c))
  }

  /** Every colour image with pixels yields three distributions. */
  lemma FeaturesAreDistributions(data: seq<nat>, channels: nat, n: nat)
    requires IsImage(data, channels, n) && n > 0 && channels >= 3
    ensures IsHistogram(Features(data, channels, n).value)
  {
    var r, g, b := ChannelHistogram(data, channels, 0, n), ChannelHistogram(data, channels, 1, n), ChannelHistogram(data, channels, 2, n);
    ChannelIsDistribution(data, channels, 0, n);
    ChannelIsDistribution(data, channels, 1, n);
    ChannelIsDistribution(data, channels, 2, n);
    ThreeChannels(Normalized(r), Normalized(g), Normalized(b));
  }

  lemma ChannelIsDistribution(data: seq<nat>, channels: nat, c: nat, n: nat)
    requires IsImage(data, channels, n) && n > 0 && c < channels
    ensures IsDistribution(Normalized(ChannelHistogram(data, channels, c, n)))
  {
    ValuesAreBytes(data, channels, c, n, n);
    ChannelNormalizes(Values(data, channels, c, n));
  }

  lemma ThreeChannels(r: seq<real>, g: seq<real>, b: seq<real>)
    requires |r| == |g| == |b| == BINS
    ensures Channel(r + g + b, 0) == r && Channel(r + g + b, 1) == g && Channel(r + g + b, 2) == b
    ensures IsDistribution(r) && IsDistribution(g) && IsDistribution(b) ==> IsHistogram(r + g + b)
  {
    var all := r + g + b;
    assert Channel(all, 0) == r && Channel(all, 1) == g && Channel(all, 2) == b;
  }

  // ----- Intersection -----

  function Minima(a: seq<real>, b: seq<real>): (m: seq<real>)
    requires |a| == |b|
    ensures |m| == |a|
  {
    seq(|a|, i requires 0 <= i < |a| => MinReal(a[i], b[i]))
  }

  function Intersection(a: seq<real>, b: seq<real>): real
    requires |a| == |b|
  {
    MaxReal(0.0, MinReal(1.0, Sum(Minima(a, b)) / 3.0))
  }

  lemma HistogramMass(hist: seq<real>)
    requires IsHistogram(hist)
    ensures Sum(hist) == 3.0 && AllNonnegative(hist)
  {
    var r, g, b := Channel(hist, 0), Channel(hist, 1), Channel(hist, 2);
    assert hist == r + g + b;
    SumAppend(r + g, b);
    SumAppend(r, g);
    assert IsDistribution(r) && IsDistribution(g) && IsDistribution(b);
  }

  /**
   * The intersection of two images' histograms lies in [0, 1] before it is clamped, does not
   * depend on their order, and is 1 exactly when the histograms are equal.
   */
  lemma IntersectionIsSimilarity(a: seq<real>, b: seq<real>)
    requires IsHistogram(a) && IsHistogram(b)
    ensures 0.0 <= Sum(Minima(a, b)) / 3.0 <= 1.0 && Intersection(a, b) == Sum(Minima(a, b)) / 3.0
    ensures Intersection(a, b) == Intersection(b, a)
    ensures Intersection(a, b) == 1.0 <==> a == b
  {
    HistogramMass(a);
    HistogramMass(b);
    var m := Minima(a, b);
    assert AllNonnegative(m);
    SumNonnegative(m);
    assert Below(m, a) && Below(m, b);
    SumOfBelow(m, a);
    SumOfBelow(m, b);
    assert m == Minima(b, a);
    if a == b {
      assert m == a;
    }
  }

  method HistogramIntersection(a: array<real>, b: array<real>) returns (r: real)
    requires a.Length == b.Length
    ensures r == Intersection(a[..], b[..])
    ensures 0.0 <= r <= 1.0
  {
    ghost var m := Minima(a[..], b[..]);
    var sum := 0.0;
    for i := 0 to a.Length
      invariant sum == Sum(m[..i])
    {
      SumSnoc(m, i);
      sum := sum + MinReal(a[i], b[i]);
    }
    assert m[..a.Length] == m;
    r := MaxReal(0.0, MinReal(1.0, sum / 3.0));
  }

  /** Divides each channel by its sum, in place. */
  method Normalize(hist: array<real>)
    requires hist.Length == BINS * CHANNELS
    modifies hist
    ensures forall c | 0 <= c < CHANNELS :: Channel(hist[..], c) == Normalized(old(Channel(hist[..], c)))
  {
    for c := 0 to CHANNELS
      invariant forall d | 0 <= d < c :: Channel(hist[..], d) == Normalized(old(Channel(hist[..], d)))
      invariant forall d | c <= d < CHANNELS :: Channel(hist[..], d) == old(Channel(hist[..], d))
    {
      NormalizeChannel(hist, c);
    }
  }

  method NormalizeChannel(hist: array<real>, c: nat)
    requires hist.Length == BINS * CHANNELS && c < CHANNELS
    modifies hist
    ensures Channel(hist[..], c) == Normalized(old(Channel(hist[..], c)))
    ensures forall d | 0 <= d < CHANNELS && d != c :: Channel(hist[..], d) == old(Channel(hist[..], d))
  {
    ghost var bins := Channel(hist[..], c);
    var sum := SumChannel(hist, c);
    if sum <= 0.0 {
      return;
    }
    for b := 0 to BINS
      invariant forall k | 0 <= k < BINS :: hist[c * BINS + k] == if k < b then bins[k] / sum else bins[k]
      invariant forall k | 0 <= k < hist.Length && !(c * BINS <= k < c * BINS + BINS) :: hist[k] == old(hist[k])
    {
      hist[c * BINS + b] := hist[c * BINS + b] / sum;
    }
    assert Channel(hist[..], c) == Scaled(bins, sum);
  }

  method SumChannel(hist: array<real>, c: nat) returns (sum: real)
    requires hist.Length == BINS * CHANNELS && c < CHANNELS
    ensures sum == Sum(Channel(hist[..], c))
  {
    ghost var bins := Channel(hist[..], c);
    sum := 0.0;
    for b := 0 to BINS
      invariant sum == Sum(bins[..b])
    {
      SumSnoc(bins, b);
      sum := sum + hist[c * BINS + b];
    }
    assert bins[..BINS] == bins;
  }

  /** The pixel loop and the normalisation; null for images without three channels. */
  method ExtractHistogram(data: seq<nat>, channels: nat, n: nat) returns (hist: array?<real>)
    requires IsImage(data, channels, n)
    ensures hist == null <==> Features(data, channels, n).None?
    ensures hist != null ==> fresh(hist) && hist[..] == Features(data, channels, n).value
  {
    if channels < 3 {
      return null;
    }
    var h := new real[BINS * CHANNELS](_ => 0.0);
    ChannelsStart(h[..], data, channels, n);
    for i := 0 to n
      invariant PixelsDone(h[..], data, channels, n, i)
    {
      AccumulatePixel(h, data, channels, n, i);
    }
    ghost var raw := h[..];
    Normalize(h);
    ThreeChannels(Channel(h[..], 0), Channel(h[..], 1), Channel(h[..], 2));
    assert h[..] == Channel(h[..], 0) + Channel(h[..], 1) + Channel(h[..], 2);
    AllPixelsDone(raw, data, channels, n);
    hist := h;
  }

  method AccumulatePixel(hist: array<real>, data: seq<nat>, channels: nat, n: nat, i: nat)
    requires IsImage(data, channels, n) && i < n && PixelsDone(hist[..], data, channels, n, i)
    modifies hist
    ensures PixelsDone(hist[..], data, channels, n, i + 1)
  {
    ghost var r, g, b := Channel(hist[..], 0), Channel(hist[..], 1), Channel(hist[..], 2);
    ChannelStep(r, data, channels, 0, n, i);
    ChannelStep(g, data, channels, 1, n, i);
    ChannelStep(b, data, channels, 2, n, i);
    var o := i * channels;
    AccumulateSoft(hist, 0, 0, data[o]);
    AccumulateSoft(hist, 1, BINS, data[o + 1]);
    AccumulateSoft(hist, 2, BINS * 2, data[o + 2]);
  }

  ghost predicate PixelsDone(hist: seq<real>, data: seq<nat>, channels: nat, n: nat, k: nat)
    requires IsImage(data, channels, n)
  {
    && |hist| == BINS * CHANNELS && channels >= 3 && k <= n
    && ChannelDone(Channel(hist, 0), data, channels, 0, n, k)
    && ChannelDone(Channel(hist, 1), data, channels, 1, n, k)
    && ChannelDone(Channel(hist, 2), data, channels, 2, n, k)
  }

  ghost predicate ChannelDone(bins: seq<real>, data: seq<nat>, channels: nat, c: nat, n: nat, k: nat)
    requires IsImage(data, channels, n) && c < channels && k <= n
  {
    ValuesAreBytes(data, channels, c, n, k);
    bins == SoftAll(Zeros(BINS), Values(data, channels, c, k))
  }

  lemma ChannelStep(bins: seq<real>, data: seq<nat>, channels: nat, c: nat, n: nat, k: nat)
    requires IsImage(data, channels, n) && c < channels && k < n && ChannelDone(bins, data, channels, c, n, k)
    ensures 0 <= k * channels + c < |data| && IsByte(data[k * channels + c])
    ensures |bins| == BINS && ChannelDone(Soft(bins, data[k * channels + c]), data, channels, c, n, k + 1)
  {
    ByteIndex(k, channels, c, n);
    ValuesAreBytes(data, channels, c, n, k);
    ValuesAreBytes(data, channels, c, n, k + 1);
    assert Values(data, channels, c, k + 1)[..k] == Values(data, channels, c, k);
  }

  lemma ChannelsStart(hist: seq<real>, data: seq<nat>, channels: nat, n: nat)
    requires IsImage(data, channels, n) && channels >= 3
    requires |hist| == BINS * CHANNELS && forall i | 0 <= i < |hist| :: hist[i] == 0.0
    ensures PixelsDone(hist, data, channels, n, 0)
  {
    assert Channel(hist, 0) == Channel(hist, 1) == Channel(hist, 2) == Zeros(BINS);
  }

  lemma AllPixelsDone(hist: seq<real>, data: seq<nat>, channels: nat, n: nat)
    requires IsImage(data, channels, n) && PixelsDone(hist, data, channels, n, n)
    ensures Features(data, channels, n)
      == Some(Normalized(Channel(hist, 0)) + Normalized(Channel(hist, 1)) + Normalized(Channel(hist, 2)))
  {
  }

  // ----- The features in closed form -----

  /** What a pixel value gives to bin `b`: 1 at the bin's own value 17 b, falling to 0 at the next bins'. */
  function Kernel(b: nat, value: nat): real {
    var d := b as real - value as real / 17.0;
    MaxReal(0.0, 1.0 - (if d < 0.0 then -d else d))
  }

  function KernelSum(b: nat, values: seq<nat>): real {
    if values == [] then 0.0 else KernelSum(b, values[..|values| - 1]) + Kernel(b, values[|values| - 1])
  }

  lemma SoftIsKernel(bins: seq<real>, value: nat, b: nat)
    requires |bins| == BINS && IsByte(value) && b < BINS
    ensures Soft(bins, value)[b] == bins[b] + Kernel(b, value)
  {
    assert Position(value) == value as real / 17.0;
    var lo := LowBin(value);
    assert b < lo ==> b as real + 1.0 <= lo as real;
    assert b > lo + 1 ==> b as real >= lo as real + 2.0;
    assert lo == BINS - 1 ==> Share(value) == 0.0;
  }

  lemma {:induction false} ChannelIsKernelSum(values: seq<nat>, b: nat)
    requires (forall v | v in values :: IsByte(v)) && b < BINS
    ensures SoftAll(Zeros(BINS), values)[b] == KernelSum(b, values)
  {
    if values == [] {
    } else {
      var k := |values| - 1;
      assert forall v | v in values[..k] :: v in values;
      ChannelIsKernelSum(values[..k], b);
      SoftIsKernel(SoftAll(Zeros(BINS), values[..k]), values[k], b);
    }
  }

  /** The average of the kernel over the values. */
  predicate IsShareOf(x: real, b: nat, values: seq<nat>) {
    values != [] && x == KernelSum(b, values) / |values| as real
  }

  lemma NormalizedIsShare(values: seq<nat>, b: nat)
    requires values != [] && (forall v | v in values :: IsByte(v)) && b < BINS
    ensures IsShareOf(Normalized(SoftAll(Zeros(BINS), values))[b], b, values)
  {
    ChannelMass(values);
    ChannelIsKernelSum(values, b);
  }

  /**
   * Feature `16 c + b` is the average over all pixels of what their channel `c` gives to bin `b`;
   * grey images have no features.
   */
  lemma FeaturesAreExact(data: seq<nat>, channels: nat, n: nat, c: nat, b: nat)
    requires IsImage(data, channels, n) && n > 0 && c < CHANNELS && b < BINS
    ensures Features(data, channels, n).Some? <==> channels >= 3
    ensures channels >= 3 ==>
      var values := Values(data, channels, c, n);
      && |Features(data, channels, n).value| == BINS * CHANNELS
      && IsShareOf(Features(data, channels, n).value[BINS * c + b], b, values)
      && forall i | 0 <= i < n :: 0 <= i * channels + c < |data| && values[i] == data[i * channels + c]
  {
    if channels >= 3 {
      ValuesAreBytes(data, channels, c, n, n);
      FeatureOfChannel(data, channels, n, c, b);
      NormalizedIsShare(Values(data, channels, c, n), b);
      forall i | 0 <= i < n ensures 0 <= i * channels + c < |data| && Values(data, channels, c, n)[i] == data[i * channels + c] {
        ByteIndex(i, channels, c, n);
      }
    }
  }

  lemma FeatureOfChannel(data: seq<nat>, channels: nat, n: nat, c: nat, b: nat)
    requires IsImage(data, channels, n) && channels >= 3 && c < CHANNELS && b < BINS
    ensures |Features(data, channels, n).value| == BINS * CHANNELS
    ensures Features(data, channels, n).value[BINS * c + b] == Normalized(ChannelHistogram(data, channels, c, n))[b]
  {
    ThreeAt(Normalized(ChannelHistogram(data, channels, 0, n)), Normalized(ChannelHistogram(data, channels, 1, n)),
      Normalized(ChannelHistogram(data, channels, 2, n)), c, b);
  }

  lemma ThreeAt(r: seq<real>, g: seq<real>, b: seq<real>, c: nat, k: nat)
    requires |r| == |g| == |b| == BINS && c < CHANNELS && k < BINS
    ensures (r + g + b)[BINS * c + k] == (if c == 0 then r else if c == 1 then g else b)[k]
  {
  }

  // ----- The intersection as a distance -----

  /** The sum of the differences, bin by bin. */
  function Difference(a: seq<real>, b: seq<real>): real
    requires |a| == |b|
  {
    if a == [] then 0.0
    else
      var k := |a| - 1;
      Difference(a[..k], b[..k]) + (if a[k] <= b[k] then b[k] - a[k] else a[k] - b[k])
  }

  lemma {:induction false} MinimaAndDifference(a: seq<real>, b: seq<real>)
    requires |a| == |b|
    ensures 2.0 * Sum(Minima(a, b)) == Sum(a) + Sum(b) - Difference(a, b)
  {
    if a == [] {
    } else {
      var k := |a| - 1;
      assert Minima(a, b)[..k] == Minima(a[..k], b[..k]);
      MinimaAndDifference(a[..k], b[..k]);
    }
  }

  /** The similarity of two images is 1 minus a sixth of the difference of their histograms. */
  lemma IntersectionIsDistance(a: seq<real>, b: seq<real>)
    requires IsHistogram(a) && IsHistogram(b)
    ensures Intersection(a, b) == 1.0 - Difference(a, b) / 6.0
  {
    HistogramMass(a);
    HistogramMass(b);
    MinimaAndDifference(a, b);
    IntersectionIsSimilarity(a, b);
  }
}
