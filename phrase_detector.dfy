/**
 * `PhraseBoundaryDetector.detect_periodicity`: the decision logic that turns the
 * autocorrelation of a loudness envelope into a phrase period. The lag grid is
 * `k * 512 / sr` seconds; the search keeps the lags whose time lies in
 * [min_period, max_period]; inside that window it takes the highest peak whose
 * prominence (measured on the raw, un-normalised autocorrelation) is at least 0.05,
 * or else the first maximum of the window. The curve handed back is the
 * autocorrelation divided by its lag-0 value, with no guard against a zero divisor.
 */
module PhraseDetector {
  import opened Wrappers
  import opened NumPy
  import opened SciPySignal

  /** Frames of the RMS envelope are 512 audio samples apart. */
  const HopLength: nat := 512

  /** `find_peaks(..., prominence=0.05)`, applied to the un-normalised curve. */
  const MinProminence: real := 0.05

  /** The duration of one hop, 512 / sr seconds. */
  function HopSeconds(sr: nat): (d: real)
    requires sr > 0
    ensures 0.0 < d
  {
    HopLength as real / sr as real
  }

  /** `librosa.frames_to_time` for frame k: k hops, counted one hop at a time. */
  function LagTime(k: nat, sr: nat): real
    requires sr > 0
  {
    if k == 0 then 0.0 else LagTime(k - 1, sr) + HopSeconds(sr)
  }

  /** The closed form used by librosa: `k * hop_length / sr`. */
  lemma {:induction false} LagTimeClosedForm(k: nat, sr: nat)
    requires sr > 0
    ensures LagTime(k, sr) == (k * HopLength) as real / sr as real
  {
    if k > 0 {
      LagTimeClosedForm(k - 1, sr);
      calc {
        LagTime(k, sr);
        ((k - 1) * HopLength) as real / sr as real + HopLength as real / sr as real;
        ((k - 1) * HopLength + HopLength) as real / sr as real;
        (k * HopLength) as real / sr as real;
      }
    }
  }

  lemma {:induction false} LagTimeIncreasing(i: nat, j: nat, sr: nat)
    requires sr > 0 && i < j
    ensures LagTime(i, sr) < LagTime(j, sr)
    decreases j
  {
    if i < j - 1 {
      LagTimeIncreasing(i, j - 1, sr);
    }
  }

  /** `times` for the lags 0..n-1; a strictly increasing grid. */
  function FramesToTime(n: nat, sr: nat): (times: seq<real>)
    requires sr > 0
    ensures |times| == n
    ensures forall k :: 0 <= k < n ==> times[k] == LagTime(k, sr)
  {
    seq(n, k requires 0 <= k < n => LagTime(k, sr))
  }

  lemma LagGridIncreases(n: nat, sr: nat)
    requires sr > 0
    ensures NonDecreasing(FramesToTime(n, sr))
  {
    var times := FramesToTime(n, sr);
    forall i, j | 0 <= i < j < n ensures times[i] <= times[j] {
      LagTimeIncreasing(i, j, sr);
    }
  }

  /** The search mask `(times >= min_period) & (times <= max_period)` of line 38. */
  function SearchMask(times: seq<real>, minPeriod: real, maxPeriod: real): (mask: seq<bool>)
    ensures |mask| == |times|
    ensures forall k :: 0 <= k < |times| ==> (mask[k] <==> minPeriod <= times[k] <= maxPeriod)
  {
    seq(|times|, k requires 0 <= k < |times| => minPeriod <= times[k] <= maxPeriod)
  }

  /** Lag k lies in the search window: its time is in [min_period, max_period], both ends included. */
  predicate InWindow(k: nat, sr: nat, minPeriod: real, maxPeriod: real)
    requires sr > 0
  {
    minPeriod <= LagTime(k, sr) <= maxPeriod
  }

  /** A float produced by NumPy's element-wise division, which does not raise on a zero divisor. */
  datatype Float = Finite(v: real) | PosInf | NegInf | NaN

  /** IEEE division: x/0 is +inf, -inf or nan according to the sign of x. */
  function Divide(n: real, d: real): (q: Float)
    ensures d != 0.0 ==> q == Finite(n / d)
    ensures d == 0.0 ==> (q == NaN <==> n == 0.0) && (q == PosInf <==> n > 0.0) && (q == NegInf <==> n < 0.0)
  {
    if d != 0.0 then Finite(n / d)
    else if n > 0.0 then PosInf
    else if n < 0.0 then NegInf
    else NaN
  }

  /** `ac / ac[0]`. */
  function Normalise(ac: seq<real>): (curve: seq<Float>)
    requires |ac| > 0
    ensures |curve| == |ac|
    ensures forall k :: 0 <= k < |ac| ==> curve[k] == Divide(ac[k], ac[0])
  {
    seq(|ac|, k requires 0 <= k < |ac| => Divide(ac[k], ac[0]))
  }

  /** The lag-0 entry of a curve whose lag-0 value is not zero normalises to exactly 1. */
  lemma NormaliseStartsAtOne(ac: seq<real>)
    requires |ac| > 0 && ac[0] != 0.0
    ensures Normalise(ac)[0] == Finite(1.0)
  {
  }

  /** Some position of the window samples w is a peak that passes the prominence test. */
  predicate HasQualifyingPeak(w: seq<real>)
  {
    exists i :: 0 <= i < |w| && Qualifies(w, i, MinProminence)
  }

  /**
   * The position chosen inside the window: `peaks[np.argmax(valid_ac[peaks])]` when
   * find_peaks reports something, else `np.argmax(valid_ac)`.
   */
  function PickPeak(w: seq<real>): (j: nat)
    requires |w| > 0
    ensures j < |w|
  {
    var peaks := FindPeaks(w, MinProminence);
    if |peaks| > 0 then peaks[ArgMax(Gather(w, peaks))] else ArgMax(w)
  }

  /**
   * With a qualifying peak, PickPeak returns a qualifying peak strictly inside the window,
   * the highest of the qualifying peaks and the first of them on ties.
   */
  lemma PickPeakStrongest(w: seq<real>)
    requires |w| > 0 && HasQualifyingPeak(w)
    ensures var j := PickPeak(w);
      && 0 < j < |w| - 1
      && Qualifies(w, j, MinProminence)
      && (forall i {:trigger Qualifies(w, i, MinProminence)} :: 0 <= i < |w| && Qualifies(w, i, MinProminence) ==> w[i] <= w[j])
      && (forall i {:trigger Qualifies(w, i, MinProminence)} :: 0 <= i < j && Qualifies(w, i, MinProminence) ==> w[i] < w[j])
  {
    var peaks := FindPeaks(w, MinProminence);
    FindPeaksComplete(w, MinProminence);
    var i :| 0 <= i < |w| && Qualifies(w, i, MinProminence);
    assert i in peaks;
    GatherArgMax(w, peaks);
    PeakIsInteriorMaximum(w, PickPeak(w));
  }

  /** Without one, PickPeak returns the first maximum of the whole window. */
  lemma PickPeakFirstMaximum(w: seq<real>)
    requires |w| > 0 && !HasQualifyingPeak(w)
    ensures var j := PickPeak(w);
      && (forall i :: 0 <= i < |w| ==> w[i] <= w[j])
      && (forall i :: 0 <= i < j ==> w[i] < w[j])
  {
  }

  /** Lines 51-55: the time of the position PickPeak chooses among the in-window lags. */
  function WindowPeriod(validAc: seq<real>, validTimes: seq<real>): real
    requires 0 < |validAc| == |validTimes|
  {
    validTimes[PickPeak(validAc)]
  }

  /**
   * Lines 37-55 on a lag grid `times` of the same length as `ac`: 0.0 when no lag falls in the
   * window, else the WindowPeriod of `valid_ac = ac[mask]` and `valid_times = times[mask]`.
   */
  function ChosenPeriod(ac: seq<real>, times: seq<real>, minPeriod: real, maxPeriod: real): real
    requires |times| == |ac|
  {
    var mask := SearchMask(times, minPeriod, maxPeriod);
    if !Any(mask) then 0.0
    else
      WhereComplete(mask);
      WindowPeriod(Select(ac, mask), Select(times, mask))
  }

  /**
   * On any grid: with no lag in [min_period, max_period] the period is the sentinel 0.0,
   * otherwise it is the time of one of the lags inside the window.
   */
  lemma ChosenPeriodInWindow(ac: seq<real>, times: seq<real>, minPeriod: real, maxPeriod: real)
    requires |times| == |ac|
    ensures var period := ChosenPeriod(ac, times, minPeriod, maxPeriod);
      && ((forall k :: 0 <= k < |ac| ==> !(minPeriod <= times[k] <= maxPeriod)) ==> period == 0.0)
      && ((exists k :: 0 <= k < |ac| && minPeriod <= times[k] <= maxPeriod) ==>
            exists k :: 0 <= k < |ac| && minPeriod <= times[k] <= maxPeriod && period == times[k])
  {
    var mask := SearchMask(times, minPeriod, maxPeriod);
    if Any(mask) {
      WhereComplete(mask);
      var best := PickPeak(Select(ac, mask));
      var k := Where(mask)[best];
      assert k < |ac| && mask[k];
      assert ChosenPeriod(ac, times, minPeriod, maxPeriod) == times[k];
    }
  }

  /** The detector's result: the period in seconds, the lag grid and the normalised curve. */
  datatype Detection = Detection(period: real, times: seq<real>, curve: seq<Float>)

  /**
   * `IndexError`: `ac[0]` on an empty autocorrelation.
   * `InvalidFftSize`: `librosa.autocorrelate` on an empty envelope pads to -1 FFT points.
   */
  datatype DetectError = IndexError | InvalidFftSize

  /** `detect_periodicity` from line 30 on, given the autocorrelation `ac` of the smoothed envelope. */
  function DetectPeriodicity(ac: seq<real>, sr: nat, minPeriod: real, maxPeriod: real): (r: Result<Detection, DetectError>)
    requires sr > 0
    ensures r.Failure? <==> |ac| == 0
    ensures r.Success? ==> |r.value.times| == |ac| && |r.value.curve| == |ac|
    ensures r.Success? ==> forall k :: 0 <= k < |ac| ==> r.value.times[k] == LagTime(k, sr)
    ensures r.Success? ==> r.value.period == ChosenPeriod(ac, r.value.times, minPeriod, maxPeriod)
    ensures r.Success? ==> r.value.curve == Normalise(ac)
  {
    if |ac| == 0 then Failure(IndexError)
    else
      var times := FramesToTime(|ac|, sr);
      Success(Detection(ChosenPeriod(ac, times, minPeriod, maxPeriod), times, Normalise(ac)))
  }

  /**
   * On an increasing grid the window mask is true exactly on the lags
   * `searchsorted(times, min_period, 'left')` up to `searchsorted(times, max_period, 'right')`,
   * so `valid_ac` is the slice ac[lo..hi] and `valid_times` is times[lo..hi].
   */
  lemma WindowIsSlice(ac: seq<real>, times: seq<real>, minPeriod: real, maxPeriod: real)
    requires |times| == |ac| && NonDecreasing(times)
    ensures var lo, hi := SearchLeft(times, minPeriod), SearchRight(times, maxPeriod);
      var mask := SearchMask(times, minPeriod, maxPeriod);
      && (Any(mask) <==> lo < hi)
      && (lo < hi ==> Select(ac, mask) == ac[lo..hi] && Select(times, mask) == times[lo..hi])
  {
    var lo, hi := SearchLeft(times, minPeriod), SearchRight(times, maxPeriod);
    var mask := SearchMask(times, minPeriod, maxPeriod);
    ClosedRangeMask(times, minPeriod, maxPeriod, mask);
    if lo < hi {
      assert mask[lo];
      SelectInterval(ac, mask, lo, hi);
      SelectInterval(times, mask, lo, hi);
    }
  }

  /** With a non-empty window lo..hi-1, the period is chosen from ac[lo..hi] and times[lo..hi]. */
  lemma ChosenFromSlice(ac: seq<real>, times: seq<real>, minPeriod: real, maxPeriod: real)
    requires |times| == |ac| && NonDecreasing(times)
    requires SearchLeft(times, minPeriod) < SearchRight(times, maxPeriod)
    ensures var lo, hi := SearchLeft(times, minPeriod), SearchRight(times, maxPeriod);
      ChosenPeriod(ac, times, minPeriod, maxPeriod) == WindowPeriod(ac[lo..hi], times[lo..hi])
  {
    WindowIsSlice(ac, times, minPeriod, maxPeriod);
  }

  /** With a non-empty window lo..hi-1, the period is times[lo + PickPeak(ac[lo..hi])]. */
  lemma PeriodIsPickedLag(ac: seq<real>, times: seq<real>, minPeriod: real, maxPeriod: real)
    requires |times| == |ac| && NonDecreasing(times)
    requires SearchLeft(times, minPeriod) < SearchRight(times, maxPeriod)
    ensures var lo, hi := SearchLeft(times, minPeriod), SearchRight(times, maxPeriod);
      ChosenPeriod(ac, times, minPeriod, maxPeriod) == times[lo + PickPeak(ac[lo..hi])]
  {
    var lo, hi := SearchLeft(times, minPeriod), SearchRight(times, maxPeriod);
    ChosenFromSlice(ac, times, minPeriod, maxPeriod);
    var j := PickPeak(ac[lo..hi]);
    assert times[lo..hi][j] == times[lo + j];
  }

  /**
   * When some lag of the window w = ac[lo..hi] carries a peak of prominence at least 0.05, the
   * period is the time of lag lo + j for a qualifying peak j strictly inside the window, the
   * highest of the qualifying peaks and the first of them on ties.
   */
  lemma StrongestPeakChosen(ac: seq<real>, times: seq<real>, minPeriod: real, maxPeriod: real)
    requires |times| == |ac| && NonDecreasing(times)
    requires SearchLeft(times, minPeriod) < SearchRight(times, maxPeriod)
    requires HasQualifyingPeak(ac[SearchLeft(times, minPeriod)..SearchRight(times, maxPeriod)])
    ensures var lo, hi := SearchLeft(times, minPeriod), SearchRight(times, maxPeriod);
      var w := ac[lo..hi];
      var j := PickPeak(w);
      && ChosenPeriod(ac, times, minPeriod, maxPeriod) == times[lo + j]
      && 0 < j < |w| - 1
      && Qualifies(w, j, MinProminence)
      && (forall i :: 0 <= i < |w| && Qualifies(w, i, MinProminence) ==> w[i] <= w[j])
      && (forall i :: 0 <= i < j && Qualifies(w, i, MinProminence) ==> w[i] < w[j])
  {
    var lo, hi := SearchLeft(times, minPeriod), SearchRight(times, maxPeriod);
    PeriodIsPickedLag(ac, times, minPeriod, maxPeriod);
    PickPeakStrongest(ac[lo..hi]);
  }

  /**
   * When no lag of the window w = ac[lo..hi] carries a qualifying peak, the period is the time
   * of lag lo + j for the first maximum j of w.
   */
  lemma FallbackToFirstMaximum(ac: seq<real>, times: seq<real>, minPeriod: real, maxPeriod: real)
    requires |times| == |ac| && NonDecreasing(times)
    requires SearchLeft(times, minPeriod) < SearchRight(times, maxPeriod)
    requires !HasQualifyingPeak(ac[SearchLeft(times, minPeriod)..SearchRight(times, maxPeriod)])
    ensures var lo, hi := SearchLeft(times, minPeriod), SearchRight(times, maxPeriod);
      var w := ac[lo..hi];
      var j := PickPeak(w);
      && ChosenPeriod(ac, times, minPeriod, maxPeriod) == times[lo + j]
      && (forall i :: 0 <= i < |w| ==> w[i] <= w[j])
      && (forall i :: 0 <= i < j ==> w[i] < w[j])
  {
    var lo, hi := SearchLeft(times, minPeriod), SearchRight(times, maxPeriod);
    PeriodIsPickedLag(ac, times, minPeriod, maxPeriod);
    PickPeakFirstMaximum(ac[lo..hi]);
  }

  /**
   * On the detector's own grid `k * 512 / sr`: with no lag in [min_period, max_period] the
   * period is the sentinel 0.0; otherwise it is the time of some lag k < len(ac) inside the
   * window, an exact grid point.
   */
  lemma PeriodOnLagGrid(ac: seq<real>, sr: nat, minPeriod: real, maxPeriod: real)
    requires sr > 0 && |ac| > 0
    ensures var period := DetectPeriodicity(ac, sr, minPeriod, maxPeriod).value.period;
      && ((forall k :: 0 <= k < |ac| ==> !InWindow(k, sr, minPeriod, maxPeriod)) ==> period == 0.0)
      && ((exists k :: 0 <= k < |ac| && InWindow(k, sr, minPeriod, maxPeriod)) ==>
            exists k :: 0 <= k < |ac| && InWindow(k, sr, minPeriod, maxPeriod) && period == LagTime(k, sr))
  {
    var d := DetectPeriodicity(ac, sr, minPeriod, maxPeriod).value;
    ChosenPeriodInWindow(ac, d.times, minPeriod, maxPeriod);
    if exists k :: 0 <= k < |ac| && InWindow(k, sr, minPeriod, maxPeriod) {
      var k0 :| 0 <= k0 < |ac| && InWindow(k0, sr, minPeriod, maxPeriod);
      assert minPeriod <= d.times[k0] <= maxPeriod;
      var k :| 0 <= k < |ac| && minPeriod <= d.times[k] <= maxPeriod && d.period == d.times[k];
      assert InWindow(k, sr, minPeriod, maxPeriod);
    } else {
      forall k | 0 <= k < |ac| ensures !(minPeriod <= d.times[k] <= maxPeriod) {
        assert !InWindow(k, sr, minPeriod, maxPeriod);
      }
    }
  }

  /** The lag-k product sum over the first m samples: x[0]*x[k] + ... + x[m-1]*x[m-1+k]. */
  function LagSum(x: seq<real>, k: nat, m: nat): real
    requires m + k <= |x|
  {
    if m == 0 then 0.0 else LagSum(x, k, m - 1) + x[m - 1] * x[m - 1 + k]
  }

  /**
   * `librosa.autocorrelate(x, max_size=maxSize)` as the direct sum
   * `ac[k] = x[0]*x[k] + ... + x[n-1-k]*x[n-1]`, truncated to min(maxSize, len(x)) lags.
   */
  function Autocorrelate(x: seq<real>, maxSize: nat): (ac: seq<real>)
    ensures |ac| == (if maxSize < |x| then maxSize else |x|)
    ensures forall k :: 0 <= k < |ac| ==> ac[k] == LagSum(x, k, |x| - k)
  {
    var n := if maxSize < |x| then maxSize else |x|;
    seq(n, k requires 0 <= k < n => LagSum(x, k, |x| - k))
  }

  lemma SquareNonNegative(a: real)
    ensures 0.0 <= a * a
  {
    if a < 0.0 {
      assert a * a == (-a) * (-a);
    }
  }

  /** The lag-0 autocorrelation is the signal's energy, never negative. */
  lemma {:induction false} ZeroLagIsEnergy(x: seq<real>, m: nat)
    requires m <= |x|
    ensures 0.0 <= LagSum(x, 0, m)
  {
    if m > 0 {
      ZeroLagIsEnergy(x, m - 1);
      SquareNonNegative(x[m - 1]);
    }
  }

  /** A silent signal has an all-zero autocorrelation. */
  lemma {:induction false} SilentLagSum(x: seq<real>, k: nat, m: nat)
    requires m + k <= |x|
    requires forall t :: 0 <= t < |x| ==> x[t] == 0.0
    ensures LagSum(x, k, m) == 0.0
  {
    if m > 0 {
      SilentLagSum(x, k, m - 1);
    }
  }

  /** `max_lag = int(max_period * sr / hop_length)` for a non-negative max_period. */
  function MaxLag(maxPeriod: real, sr: nat): (n: nat)
    requires sr > 0 && 0.0 <= maxPeriod
    ensures n as real <= maxPeriod * sr as real / HopLength as real < n as real + 1.0
  {
    Trunc(maxPeriod * sr as real / HopLength as real)
  }

  /** Every lag below max_lag has a time strictly below max_period. */
  lemma LagBelowMaxLag(k: nat, sr: nat, maxPeriod: real)
    requires sr > 0 && 0.0 <= maxPeriod && k < MaxLag(maxPeriod, sr)
    ensures LagTime(k, sr) < maxPeriod
  {
    var s, h := sr as real, HopLength as real;
    assert (k as real) < maxPeriod * s / h;
    assert (k as real) * h < maxPeriod * s;
    assert (k as real) * h / s < maxPeriod;
    LagTimeClosedForm(k, sr);
  }

  /**
   * Lines 9-59 from the smoothed envelope on: `librosa.autocorrelate` pads an empty envelope
   * to -1 FFT points and raises; otherwise the autocorrelation, truncated to max_lag lags, goes
   * through DetectPeriodicity.
   */
  function DetectFromEnvelope(envelope: seq<real>, sr: nat, minPeriod: real, maxPeriod: real): (r: Result<Detection, DetectError>)
    requires sr > 0 && 0.0 <= maxPeriod
    ensures |envelope| == 0 ==> r == Failure(InvalidFftSize)
    ensures |envelope| > 0 ==> r == DetectPeriodicity(Autocorrelate(envelope, MaxLag(maxPeriod, sr)), sr, minPeriod, maxPeriod)
  {
    if |envelope| == 0 then Failure(InvalidFftSize)
    else DetectPeriodicity(Autocorrelate(envelope, MaxLag(maxPeriod, sr)), sr, minPeriod, maxPeriod)
  }

  /**
   * Because len(ac) <= max_lag, every lag time is strictly below max_period: a successful
   * detection reports the sentinel 0.0 or a period in [min_period, max_period).
   */
  lemma EnvelopePeriodInWindow(envelope: seq<real>, sr: nat, minPeriod: real, maxPeriod: real)
    requires sr > 0 && 0.0 <= maxPeriod
    ensures var r := DetectFromEnvelope(envelope, sr, minPeriod, maxPeriod);
      r.Success? ==> r.value.period == 0.0 || minPeriod <= r.value.period < maxPeriod
  {
    var r := DetectFromEnvelope(envelope, sr, minPeriod, maxPeriod);
    if r.Success? {
      var ac := Autocorrelate(envelope, MaxLag(maxPeriod, sr));
      PeriodOnLagGrid(ac, sr, minPeriod, maxPeriod);
      if exists k :: 0 <= k < |ac| && InWindow(k, sr, minPeriod, maxPeriod) {
        var k :| 0 <= k < |ac| && InWindow(k, sr, minPeriod, maxPeriod) && r.value.period == LagTime(k, sr);
        LagBelowMaxLag(k, sr, maxPeriod);
      }
    }
  }

  /** A window of equal samples has no peak, so PickPeak falls back to its first entry. */
  lemma FlatWindowPicksFirst(w: seq<real>)
    requires |w| > 0 && forall i :: 0 <= i < |w| ==> w[i] == w[0]
    ensures !HasQualifyingPeak(w) && PickPeak(w) == 0
  {
    assert forall i :: 0 <= i < |w| ==> !IsPeak(w, i);
    PickPeakFirstMaximum(w);
  }

  /**
   * An all-zero autocorrelation: the normalised curve is NaN at every lag (0/0), and the period
   * is not the sentinel but the time of the first lag of the window whenever the window is not
   * empty, because the first maximum of an all-zero window is its first entry.
   */
  lemma SilentDetection(ac: seq<real>, sr: nat, minPeriod: real, maxPeriod: real)
    requires sr > 0 && |ac| > 0
    requires forall k :: 0 <= k < |ac| ==> ac[k] == 0.0
    ensures var d := DetectPeriodicity(ac, sr, minPeriod, maxPeriod).value;
      var lo, hi := SearchLeft(d.times, minPeriod), SearchRight(d.times, maxPeriod);
      && (forall k :: 0 <= k < |d.curve| ==> d.curve[k] == NaN)
      && (lo < hi ==> d.period == d.times[lo])
      && (hi <= lo ==> d.period == 0.0)
  {
    var d := DetectPeriodicity(ac, sr, minPeriod, maxPeriod).value;
    var times := d.times;
    assert times == FramesToTime(|ac|, sr);
    LagGridIncreases(|ac|, sr);
    var lo, hi := SearchLeft(times, minPeriod), SearchRight(times, maxPeriod);
    WindowIsSlice(ac, times, minPeriod, maxPeriod);
    if lo < hi {
      FlatWindowPicksFirst(ac[lo..hi]);
      PeriodIsPickedLag(ac, times, minPeriod, maxPeriod);
    } else {
      var mask := SearchMask(times, minPeriod, maxPeriod);
      assert forall k :: 0 <= k < |ac| ==> !mask[k];
    }
  }

  /** A silent envelope: its autocorrelation is all zero, with the consequences of SilentDetection. */
  lemma SilentEnvelope(envelope: seq<real>, sr: nat, minPeriod: real, maxPeriod: real)
    requires sr > 0 && 0.0 <= maxPeriod && MaxLag(maxPeriod, sr) > 0 && |envelope| > 0
    requires forall t :: 0 <= t < |envelope| ==> envelope[t] == 0.0
    ensures var r := DetectFromEnvelope(envelope, sr, minPeriod, maxPeriod);
      var lo, hi := SearchLeft(r.value.times, minPeriod), SearchRight(r.value.times, maxPeriod);
      && r.Success?
      && (forall k :: 0 <= k < |r.value.curve| ==> r.value.curve[k] == NaN)
      && (lo < hi ==> r.value.period == r.value.times[lo])
      && (hi <= lo ==> r.value.period == 0.0)
  {
    var ac := Autocorrelate(envelope, MaxLag(maxPeriod, sr));
    forall k | 0 <= k < |ac| ensures ac[k] == 0.0 {
      SilentLagSum(envelope, k, |envelope| - k);
    }
    SilentDetection(ac, sr, minPeriod, maxPeriod);
  }
}
