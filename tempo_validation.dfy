/**
 * `validate_tempo_invariance`: for each playback-speed factor, stretch the recording, detect
 * its phrase period in the fixed window [5, 15] s, and record the detected period, the period
 * expected from a fixed 10 s baseline, and their distance, each rounded to two decimals.
 *
 * Loading, time-stretching and envelope extraction are outside the model: `envelopeOf(speed)`
 * is the smoothed loudness envelope of the recording stretched by `speed`, and `round2` is
 * Python's `round(x, 2)`.
 */
module TempoValidation {
  import opened Wrappers
  import opened PhraseDetector

  /** `librosa.load(file_path, sr=22050)`. */
  const SampleRate: nat := 22050

  /** The search window passed to the detector. */
  const WindowMin: real := 5.0
  const WindowMax: real := 15.0

  /** The period assumed for the unstretched recording. */
  const BaselinePeriod: real := 10.0

  /** The default `speed_factors`. */
  const DefaultSpeeds: seq<real> := [0.8, 1.0, 1.2, 1.4]

  /**
   * `StretchRejected`: `librosa.effects.time_stretch` raises for a rate that is not positive.
   * `DetectFailed`: the detector raised.
   */
  datatype ValidationError = StretchRejected | DetectFailed(cause: DetectError)

  /** The unrounded figures of one speed factor. */
  datatype Measurement = Measurement(detected: real, expected: real, error: real)

  /** One stored record: the speed factor and the three rounded figures. */
  datatype Row = Row(speed: real, detected: real, expected: real, error: real)

  function Abs(x: real): (a: real)
    ensures 0.0 <= a && (a == x || a == -x)
  {
    if x < 0.0 then -x else x
  }

  /** Lines 23-24: the figures of one detection at a positive speed factor, before rounding. */
  function Figures(detected: real, speed: real): Measurement
    requires 0.0 < speed
  {
    var expected := BaselinePeriod / speed;
    Measurement(detected, expected, Abs(detected - expected))
  }

  /** The expected period scales inversely with the speed, and the error is the distance between the two periods. */
  lemma FiguresSpec(detected: real, speed: real)
    requires 0.0 < speed
    ensures var m := Figures(detected, speed);
      && m.detected == detected
      && m.expected * speed == BaselinePeriod
      && 0.0 <= m.error
      && (m.error == detected - m.expected || m.error == m.expected - detected)
  {
  }

  /** Lines 17-24 for one speed factor. */
  function Measure(speed: real, envelopeOf: real -> seq<real>): Result<Measurement, ValidationError>
  {
    if speed <= 0.0 then Failure(StretchRejected)
    else
      match DetectFromEnvelope(envelopeOf(speed), SampleRate, WindowMin, WindowMax)
      case Failure(e) => Failure(DetectFailed(e))
      case Success(d) => Success(Figures(d.period, speed))
  }

  /** Only a factor that is not positive is rejected by the stretch; otherwise the detector's outcome is passed on. */
  lemma MeasureOutcome(speed: real, envelopeOf: real -> seq<real>)
    ensures var r := Measure(speed, envelopeOf);
      && (speed <= 0.0 <==> r == Failure(StretchRejected))
      && (0.0 < speed ==>
            var d := DetectFromEnvelope(envelopeOf(speed), SampleRate, WindowMin, WindowMax);
            && (r.Success? <==> d.Success?)
            && (r.Success? ==> r.value == Figures(d.value.period, speed))
            && (r.Failure? ==> r.error == DetectFailed(d.error)))
  {
  }

  /** Lines 26-31: rounding is applied only when the record is stored. */
  function Store(speed: real, m: Measurement, round2: real -> real): Row
  {
    Row(speed, round2(m.detected), round2(m.expected), round2(m.error))
  }

  /**
   * The records the loop has built after the given speed factors, or the first exception raised;
   * `measure` is the measurement of one factor (Measure, for the recording at hand).
   */
  function Rows(speeds: seq<real>, measure: real -> Result<Measurement, ValidationError>, round2: real -> real): Result<seq<Row>, ValidationError>
  {
    if speeds == [] then Success([])
    else
      var n := |speeds| - 1;
      match Rows(speeds[..n], measure, round2)
      case Failure(e) => Failure(e)
      case Success(rows) =>
        match measure(speeds[n])
        case Failure(e) => Failure(e)
        case Success(m) => Success(rows + [Store(speeds[n], m, round2)])
  }

  /** Once a prefix of the speed factors has raised, the whole run raises the same exception. */
  lemma {:induction false} FailureSticks(speeds: seq<real>, k: nat, measure: real -> Result<Measurement, ValidationError>, round2: real -> real)
    requires k <= |speeds| && Rows(speeds[..k], measure, round2).Failure?
    ensures Rows(speeds, measure, round2) == Rows(speeds[..k], measure, round2)
  {
    if k < |speeds| {
      var n := |speeds| - 1;
      assert speeds[..n][..k] == speeds[..k];
      FailureSticks(speeds[..n], k, measure, round2);
    } else {
      assert speeds[..k] == speeds;
    }
  }

  /**
   * When no factor raises: exactly one record per speed factor, in input order, each the
   * stored measurement of its factor.
   */
  lemma {:induction false} RowsPerSpeed(speeds: seq<real>, measure: real -> Result<Measurement, ValidationError>, round2: real -> real)
    requires forall i :: 0 <= i < |speeds| ==> measure(speeds[i]).Success?
    ensures Rows(speeds, measure, round2).Success?
    ensures |Rows(speeds, measure, round2).value| == |speeds|
    ensures forall i :: 0 <= i < |speeds| ==>
      Rows(speeds, measure, round2).value[i] == Store(speeds[i], measure(speeds[i]).value, round2)
  {
    if speeds != [] {
      var n := |speeds| - 1;
      var prefix := speeds[..n];
      assert forall i :: 0 <= i < n ==> prefix[i] == speeds[i];
      RowsPerSpeed(prefix, measure, round2);
    }
  }

  /** When some factor raises, the run raises the error of the first factor that does. */
  lemma {:induction false} FirstFailureWins(speeds: seq<real>, k: nat, measure: real -> Result<Measurement, ValidationError>, round2: real -> real)
    requires k < |speeds| && measure(speeds[k]).Failure?
    requires forall j :: 0 <= j < k ==> measure(speeds[j]).Success?
    ensures Rows(speeds, measure, round2) == Failure(measure(speeds[k]).error)
  {
    var prefix := speeds[..k];
    assert forall j :: 0 <= j < k ==> prefix[j] == speeds[j];
    RowsPerSpeed(prefix, measure, round2);
    assert speeds[..k + 1][..k] == prefix;
    FailureSticks(speeds, k + 1, measure, round2);
  }

  /**
   * The loop of lines 11-31. An exception from the stretch or the detector leaves the function,
   * so the records built so far are lost.
   */
  method ValidateTempoInvariance(speeds: seq<real>, envelopeOf: real -> seq<real>, round2: real -> real)
    returns (r: Result<seq<Row>, ValidationError>)
    ensures r == Rows(speeds, s => Measure(s, envelopeOf), round2)
  {
    var results: seq<Row> := [];
    var i := 0;
    while i < |speeds|
      invariant 0 <= i <= |speeds|
      invariant Rows(speeds[..i], s => Measure(s, envelopeOf), round2) == Success(results)
    {
      var speed := speeds[i];
      assert speeds[..i + 1][..i] == speeds[..i];
      var m := Measure(speed, envelopeOf);
      if m.Failure? {
        FailureSticks(speeds, i + 1, s => Measure(s, envelopeOf), round2);
        return Failure(m.error);
      }
      results := results + [Store(speed, m.value, round2)];
      i := i + 1;
    }
    assert speeds[..i] == speeds;
    return Success(results);
  }

  /** Every detection searches [5, 15]: the detected period is the sentinel 0.0 or lies in [5, 15). */
  lemma DetectedInWindow(speed: real, envelopeOf: real -> seq<real>)
    requires Measure(speed, envelopeOf).Success?
    ensures var d := Measure(speed, envelopeOf).value.detected;
      d == 0.0 || (WindowMin <= d < WindowMax)
  {
    EnvelopePeriodInWindow(envelopeOf(speed), SampleRate, WindowMin, WindowMax);
  }

  /** With the default speed factors, every expected period 10 / speed lies inside the search window. */
  lemma DefaultExpectedInWindow()
    ensures forall i :: 0 <= i < |DefaultSpeeds| ==>
      WindowMin <= BaselinePeriod / DefaultSpeeds[i] <= WindowMax
  {
    assert BaselinePeriod / 0.8 == 12.5;
    assert BaselinePeriod / 1.4 < 7.2;
  }
}
