/**
 * The baroreflex heart-rate simulator: a predicted heart-rate trace built from a loudness
 * envelope sampled at 10 Hz. The envelope is delayed by the baroreflex latency (a circular
 * `np.roll` whose wrapped-around head is then zeroed in place), scaled by a gain and added to a
 * constant baseline and to a noise trace. The noise, drawn from `np.random.normal(0, 0.5, n)` in
 * the program, is an input here.
 *
 * The array steps are methods over `array<real>`, each proved against a function on sequences;
 * the shape of the result (baseline plus noise before the lag, the delayed envelope after it) is
 * proved about those functions.
 */
module BiomimeticModel {
  import opened NumPy

  /** The envelope sampling rate, in samples per second. */
  const EnvelopeRate: real := 10.0

  /** The keyword defaults of `simulate_hr_response`. */
  const DefaultBaselineHr: real := 75.0
  const DefaultGain: real := 15.0
  const DefaultLagSec: real := 5.0

  /** `int(lag_sec * sr)`: the latency in whole samples, truncated toward zero. */
  function LagSamples(lagSec: real, sr: real): int
  {
    Trunc(lagSec * sr)
  }

  /** With the default latency of 5 s at 10 samples per second the delay is 50 samples. */
  lemma DefaultLag()
    ensures LagSamples(DefaultLagSec, EnvelopeRate) == 50
  {
    assert DefaultLagSec * EnvelopeRate == 50.0;
  }

  /** A latency of 0.1 s or more delays by at least one sample; a shorter one does not delay at all. */
  lemma LagAtLeastOneSample(lagSec: real)
    ensures 1 <= LagSamples(lagSec, EnvelopeRate) <==> 0.1 <= lagSec
  {
    var x := lagSec * EnvelopeRate;
    assert 0.1 <= lagSec <==> 1.0 <= x;
  }

  // ---------------------------------------------------------------------------------------
  // The array operations, as functions on sequences
  // ---------------------------------------------------------------------------------------

  /** `np.roll(s, shift)`: entry i of the result is entry `(i - shift) mod n` of s. */
  function Rolled(s: seq<real>, shift: int): (r: seq<real>)
    ensures |r| == |s|
  {
    seq(|s|, i requires 0 <= i < |s| => s[(i - shift) % |s|])
  }

  /**
   * The number of leading entries a Python slice `xs[:stop]` covers in a sequence of length n:
   * a non-negative stop is clipped to n, a negative one counts back from the end and is clipped
   * to 0.
   */
  function SliceStop(stop: int, n: nat): (k: nat)
    ensures k <= n
    ensures 0 <= stop ==> (k == stop || (k == n && n <= stop))
    ensures stop < 0 ==> (k == n + stop || (k == 0 && n + stop <= 0))
  {
    if 0 <= stop then (if stop < n then stop else n)
    else if 0 <= n + stop then n + stop else 0
  }

  /** `s[:k] = 0` on a copy of s. */
  function ZeroedPrefix(s: seq<real>, k: nat): (r: seq<real>)
    ensures |r| == |s|
  {
    seq(|s|, i requires 0 <= i < |s| => if i < k then 0.0 else s[i])
  }

  /** The delayed envelope: rolled by the lag, with the slice `[:lag]` zeroed. */
  function Delayed(envelope: seq<real>, lag: int): (d: seq<real>)
    ensures |d| == |envelope|
  {
    ZeroedPrefix(Rolled(envelope, lag), SliceStop(lag, |envelope|))
  }

  /** `hr_signal + delayed_env * gain + noise`, entry by entry. */
  function Response(envelope: seq<real>, noise: seq<real>, baselineHr: real, gain: real, lag: int): (hr: seq<real>)
    requires |noise| == |envelope|
    ensures |hr| == |envelope|
  {
    var d := Delayed(envelope, lag);
    seq(|envelope|, i requires 0 <= i < |envelope| => baselineHr + d[i] * gain + noise[i])
  }

  // ---------------------------------------------------------------------------------------
  // Properties of the specification
  // ---------------------------------------------------------------------------------------

  lemma ModOfSmall(a: int, n: int)
    requires 0 <= a < n
    ensures a % n == a
  {
  }

  lemma ModOfNegativeSmall(a: int, n: int)
    requires 0 < n && -n <= a < 0
    ensures a % n == a + n
  {
    assert (a + n) % n == a + n;
  }

  lemma ModOfLarge(a: int, n: int)
    requires n <= a < 2 * n
    ensures a % n == a - n
  {
    assert (a - n) % n == a - n;
  }

  /**
   * For a shift between 0 and n, rolling moves the last `shift` entries to the front and keeps
   * the order of both parts.
   */
  lemma RolledIsRotation(s: seq<real>, shift: int)
    requires 0 <= shift <= |s|
    ensures Rolled(s, shift) == s[|s| - shift..] + s[..|s| - shift]
  {
    var n := |s|;
    var r, t := Rolled(s, shift), s[n - shift..] + s[..n - shift];
    forall i | 0 <= i < n ensures r[i] == t[i] {
      if i < shift {
        ModOfNegativeSmall(i - shift, n);
      } else {
        ModOfSmall(i - shift, n);
      }
    }
  }

  /**
   * With a non-negative lag the predicted heart rate is the baseline plus noise for the first
   * `lag` samples, and from then on the baseline plus the envelope `lag` samples earlier, times
   * the gain, plus noise.
   */
  lemma ResponseShape(envelope: seq<real>, noise: seq<real>, baselineHr: real, gain: real, lag: int)
    requires |noise| == |envelope| && 0 <= lag
    ensures var hr := Response(envelope, noise, baselineHr, gain, lag);
      && (forall i :: 0 <= i < |hr| && i < lag ==> hr[i] == baselineHr + noise[i])
      && (forall i :: lag <= i < |hr| ==> hr[i] == baselineHr + gain * envelope[i - lag] + noise[i])
  {
    var n := |envelope|;
    forall i | lag <= i < n
      ensures Rolled(envelope, lag)[i] == envelope[i - lag]
    {
      ModOfSmall(i - lag, n);
    }
  }

  /**
   * A latency of at least the whole signal wipes out the envelope: the roll wraps around and the
   * zeroed slice covers everything, so the output is the baseline plus noise whatever the
   * envelope is.
   */
  lemma LongLagIgnoresEnvelope(envelope: seq<real>, noise: seq<real>, baselineHr: real, gain: real, lag: int)
    requires |noise| == |envelope| && |envelope| <= lag
    ensures forall i :: 0 <= i < |envelope| ==> Response(envelope, noise, baselineHr, gain, lag)[i] == baselineHr + noise[i]
  {
  }

  /** Two envelopes of the same length give the same output once the lag covers the signal. */
  lemma LongLagSameOutput(e1: seq<real>, e2: seq<real>, noise: seq<real>, baselineHr: real, gain: real, lag: int)
    requires |e1| == |e2| == |noise| && |e1| <= lag
    ensures Response(e1, noise, baselineHr, gain, lag) == Response(e2, noise, baselineHr, gain, lag)
  {
    LongLagIgnoresEnvelope(e1, noise, baselineHr, gain, lag);
    LongLagIgnoresEnvelope(e2, noise, baselineHr, gain, lag);
  }

  /**
   * A negative lag (a negative `lag_sec`) rolls the envelope the other way: `[:lag]` then zeroes
   * all but the last `-lag` samples, and those carry the START of the envelope, wrapped round.
   */
  lemma NegativeLagWraps(envelope: seq<real>, noise: seq<real>, baselineHr: real, gain: real, lag: int)
    requires |noise| == |envelope| && -|envelope| <= lag < 0
    ensures var hr, n := Response(envelope, noise, baselineHr, gain, lag), |envelope|;
      && (forall i :: 0 <= i < n + lag ==> hr[i] == baselineHr + noise[i])
      && (forall i :: n + lag <= i < n ==> hr[i] == baselineHr + gain * envelope[i - (n + lag)] + noise[i])
  {
    var n := |envelope|;
    forall i | n + lag <= i < n
      ensures Rolled(envelope, lag)[i] == envelope[i - (n + lag)]
    {
      ModOfLarge(i - lag, n);
    }
  }

  /**
   * With the keyword defaults (baseline 75 bpm, gain 15, latency 5 s) the first 50 samples are
   * 75 plus noise, and every later sample is 75 plus 15 times the envelope 50 samples earlier,
   * plus noise.
   */
  lemma DefaultResponse(envelope: seq<real>, noise: seq<real>)
    requires |noise| == |envelope|
    ensures var hr := Response(envelope, noise, DefaultBaselineHr, DefaultGain, LagSamples(DefaultLagSec, EnvelopeRate));
      && (forall i :: 0 <= i < |hr| && i < 50 ==> hr[i] == 75.0 + noise[i])
      && (forall i :: 50 <= i < |hr| ==> hr[i] == 75.0 + 15.0 * envelope[i - 50] + noise[i])
  {
    DefaultLag();
    ResponseShape(envelope, noise, DefaultBaselineHr, DefaultGain, 50);
  }

  // ---------------------------------------------------------------------------------------
  // The array operations
  // ---------------------------------------------------------------------------------------

  /** `np.full(n, value, dtype=float)`. */
  method Full(n: nat, value: real) returns (a: array<real>)
    ensures fresh(a) && a.Length == n
    ensures forall i :: 0 <= i < n ==> a[i] == value
  {
    a := new real[n];
    var i := 0;
    while i < n
      invariant 0 <= i <= n
      invariant forall j :: 0 <= j < i ==> a[j] == value
    {
      a[i] := value;
      i := i + 1;
    }
  }

  /** `np.roll(a, shift)`: a fresh array; a itself is left as it was. */
  method Roll(a: array<real>, shift: int) returns (r: array<real>)
    ensures fresh(r) && r[..] == Rolled(a[..], shift)
  {
    var n := a.Length;
    r := new real[n];
    var i := 0;
    while i < n
      invariant 0 <= i <= n
      invariant forall j :: 0 <= j < i ==> r[j] == a[(j - shift) % n]
    {
      r[i] := a[(i - shift) % n];
      i := i + 1;
    }
  }

  /** The slice assignment `a[:stop] = 0`, in place. */
  method ZeroPrefix(a: array<real>, stop: int)
    modifies a
    ensures a[..] == ZeroedPrefix(old(a[..]), SliceStop(stop, a.Length))
  {
    var k := SliceStop(stop, a.Length);
    var i := 0;
    while i < k
      invariant 0 <= i <= k
      invariant forall j :: 0 <= j < i ==> a[j] == 0.0
      invariant forall j :: i <= j < a.Length ==> a[j] == old(a[j])
    {
      a[i] := 0.0;
      i := i + 1;
    }
  }

  /** `a * c`, entry by entry, into a fresh array. */
  method Scale(a: array<real>, c: real) returns (r: array<real>)
    ensures fresh(r) && r.Length == a.Length
    ensures forall i :: 0 <= i < a.Length ==> r[i] == a[i] * c
  {
    r := new real[a.Length];
    var i := 0;
    while i < a.Length
      invariant 0 <= i <= a.Length
      invariant forall j :: 0 <= j < i ==> r[j] == a[j] * c
    {
      r[i] := a[i] * c;
      i := i + 1;
    }
  }

  /** `a + b`, entry by entry, into a fresh array. */
  method Add(a: array<real>, b: array<real>) returns (r: array<real>)
    requires b.Length == a.Length
    ensures fresh(r) && r.Length == a.Length
    ensures forall i :: 0 <= i < a.Length ==> r[i] == a[i] + b[i]
  {
    r := new real[a.Length];
    var i := 0;
    while i < a.Length
      invariant 0 <= i <= a.Length
      invariant forall j :: 0 <= j < i ==> r[j] == a[j] + b[j]
    {
      r[i] := a[i] + b[i];
      i := i + 1;
    }
  }

  /** The simulator object; its sampling rate is fixed when it is built. */
  class BaroreflexSimulator {
    const sr: real

    constructor()
      ensures sr == EnvelopeRate
    {
      sr := EnvelopeRate;
    }

    /**
     * `simulate_hr_response`: the predicted heart rate for an envelope, with the noise trace
     * given. The result is a fresh array of the envelope's length; the caller's envelope and
     * noise are not in any modifies clause, so they are left unchanged.
     */
    method SimulateHrResponse(envelope: array<real>, noise: array<real>, baselineHr: real, gain: real, lagSec: real)
      returns (predictedHr: array<real>)
      requires noise.Length == envelope.Length
      ensures fresh(predictedHr)
      ensures predictedHr[..] == Response(envelope[..], noise[..], baselineHr, gain, LagSamples(lagSec, sr))
    {
      var lagSamples := Trunc(lagSec * sr);
      var signalLength := envelope.Length;
      var hrSignal := Full(signalLength, baselineHr);
      var delayedEnv := Roll(envelope, lagSamples);
      ZeroPrefix(delayedEnv, lagSamples);
      var modulation := Scale(delayedEnv, gain);
      var withModulation := Add(hrSignal, modulation);
      predictedHr := Add(withModulation, noise);
      ghost var d := Delayed(envelope[..], lagSamples);
      assert forall i :: 0 <= i < signalLength ==> delayedEnv[i] == d[i];
      assert forall i :: 0 <= i < signalLength ==>
        predictedHr[i] == Response(envelope[..], noise[..], baselineHr, gain, lagSamples)[i];
    }
  }
}
